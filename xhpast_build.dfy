/**
 * The tree builder of XHPASTTree as functions over an arena: the node table
 * is a sequence of node records that refer to each other by their index.
 *
 * `Build(a, batch)` is `buildTree($batch)` run against the table `a`: it
 * first appends one record per description of the batch (consecutive ids
 * from `|a|`), then, sibling by sibling, builds the children batch of every
 * description that has one and links the children to their parent.
 */
module XhpastBuild {
  import opened Php

  /** One node as the parser prints it: `[type, value, token index, children]`. */
  datatype NodeDesc = NodeDesc(kind: string, literal: Option<string>, token: Option<int>, children: ChildList)

  /** The fourth field of a node description: absent (or null), or a nested list. */
  datatype ChildList = Absent | Present(descs: seq<NodeDesc>)

  /**
   * An XHPASTNode in the arena: its id, the description it was made from,
   * its parent (null until linked) and the ids of its children, in order.
   */
  datatype NodeRec = NodeRec(id: nat, desc: NodeDesc, parent: Option<nat>, children: seq<nat>)

  /** Number of node descriptions in a batch, nested ones included. */
  function Count(batch: seq<NodeDesc>): nat
    decreases batch
  {
    if batch == [] then 0 else CountNode(batch[0]) + Count(batch[1..])
  }

  /** Number of node descriptions in `d`, `d` included. */
  function CountNode(d: NodeDesc): nat
    decreases d
  {
    1 + match d.children
        case Absent => 0
        case Present(cs) => Count(cs)
  }

  lemma {:induction false} CountCoversBatch(batch: seq<NodeDesc>)
    ensures Count(batch) >= |batch|
  {
    if batch != [] {
      CountCoversBatch(batch[1..]);
    }
  }

  /** The children batch of any member of a batch is smaller than the batch. */
  lemma {:induction false} CountChildBelow(batch: seq<NodeDesc>, k: nat)
    requires k < |batch| && batch[k].children.Present?
    ensures Count(batch[k].children.descs) < Count(batch)
  {
    if k > 0 {
      assert batch[1..][k - 1] == batch[k];
      CountChildBelow(batch[1..], k - 1);
    }
  }

  /** Every member of a batch counts no more than the batch. */
  lemma {:induction false} CountNodeBelow(batch: seq<NodeDesc>, k: nat)
    requires k < |batch|
    ensures CountNode(batch[k]) <= Count(batch)
  {
    if k > 0 {
      assert batch[1..][k - 1] == batch[k];
      CountNodeBelow(batch[1..], k - 1);
    }
  }

  /** A record as `new XHPASTNode($id, $node, $tree)` leaves it: no parent, no children. */
  function NewNode(id: nat, d: NodeDesc): NodeRec
  {
    NodeRec(id, d, None, [])
  }

  /** The records of the first phase of `buildTree`, ids from `first` on. */
  function Allocate(first: nat, batch: seq<NodeDesc>): seq<NodeRec>
  {
    seq(|batch|, k requires 0 <= k < |batch| => NewNode(first + k, batch[k]))
  }

  /** The ids `first`, `first + 1`, ..., `first + n - 1`. */
  function Ids(first: nat, n: nat): seq<nat>
  {
    seq(n, k requires 0 <= k < n => first + k)
  }

  predicate InArena(a: seq<NodeRec>, ids: seq<nat>)
  {
    forall k :: 0 <= k < |ids| ==> ids[k] < |a|
  }

  /** `$child->parentNode = $parent` for each child, in order. */
  function SetParents(a: seq<NodeRec>, p: nat, kids: seq<nat>): (r: seq<NodeRec>)
    requires InArena(a, kids)
    ensures |r| == |a|
    ensures forall i :: 0 <= i < |a| ==> r[i] == if i in kids then a[i].(parent := Some(p)) else a[i]
    decreases |kids|
  {
    if kids == [] then a
    else
      var r := SetParents(a[kids[0] := a[kids[0]].(parent := Some(p))], p, kids[1..]);
      assert forall i :: i in kids <==> i == kids[0] || i in kids[1..];
      r
  }

  /** Links a batch of children below node `p`: parents first, then `p`'s children list. */
  function Link(a: seq<NodeRec>, p: nat, kids: seq<nat>): (r: seq<NodeRec>)
    requires p < |a| && InArena(a, kids)
  {
    var b := SetParents(a, p, kids);
    b[p := b[p].(children := kids)]
  }

  /** `buildTree($batch)` against the table `a`: the new table and the batch's ids. */
  function Build(a: seq<NodeRec>, batch: seq<NodeDesc>): (r: (seq<NodeRec>, seq<nat>))
    ensures |r.0| == |a| + Count(batch)
    ensures r.1 == Ids(|a|, |batch|)
    decreases Count(batch), 1
  {
    CountCoversBatch(batch);
    var first := |a|;
    (Descend(a + Allocate(first, batch), first, batch), Ids(first, |batch|))
  }

  /**
   * The second phase of `buildTree`: the nodes of `batch` sit at ids `id`,
   * `id + 1`, ...; each one is given its children, in sibling order.
   */
  function Descend(a: seq<NodeRec>, id: nat, batch: seq<NodeDesc>): (r: seq<NodeRec>)
    requires id + |batch| <= |a|
    ensures |r| + |batch| == |a| + Count(batch)
    ensures |a| <= |r|
    decreases Count(batch), 0
  {
    CountCoversBatch(batch);
    if batch == [] then a
    else
      assert Count(batch) == CountNode(batch[0]) + Count(batch[1..]);
      Descend(Adopt(a, id, batch[0]), id + 1, batch[1..])
  }

  /**
   * One step of the second phase: node `id`, made from `d`, gets the
   * children batch of `d` built and linked below it, if `d` has one.
   */
  function Adopt(a: seq<NodeRec>, id: nat, d: NodeDesc): (r: seq<NodeRec>)
    requires id < |a|
    ensures |r| + 1 == |a| + CountNode(d)
    decreases CountNode(d) - 1, 2
  {
    match d.children
    case Absent => a
    case Present(cs) =>
      assert Count(cs) >= |cs| by { CountCoversBatch(cs); }
      var built := Build(a, cs);
      Link(built.0, id, built.1)
  }

  /** The second phase handles the first node of the batch, then the rest. */
  lemma DescendStep(a: seq<NodeRec>, id: nat, batch: seq<NodeDesc>)
    requires id + |batch| <= |a| && batch != []
    ensures Descend(a, id, batch) == Descend(Adopt(a, id, batch[0]), id + 1, batch[1..])
  {
  }

  /** Building a children batch leaves its ids inside the table. */
  lemma BuildInArena(a: seq<NodeRec>, batch: seq<NodeDesc>)
    ensures InArena(Build(a, batch).0, Build(a, batch).1)
  {
    CountCoversBatch(batch);
  }

  // ---------------------------------------------------------------------
  // Shape of the built table
  // ---------------------------------------------------------------------

  /**
   * Node `i`'s children list matches its description: none when the field
   * is absent, otherwise one child per nested description, in order, with
   * consecutive ids above `i` (and not below `lo`), each made from that
   * description and pointing back to `i`.
   */
  ghost predicate Wired(a: seq<NodeRec>, i: nat, lo: nat)
    requires i < |a|
  {
    match a[i].desc.children
    case Absent => a[i].children == []
    case Present(cs) =>
      && |a[i].children| == |cs|
      && forall k :: 0 <= k < |cs| ==>
           && lo <= a[i].children[k]
           && i < a[i].children[k] < |a|
           && a[i].children[k] == a[i].children[0] + k
           && a[a[i].children[k]].desc == cs[k]
           && a[a[i].children[k]].parent == Some(i)
  }

  /** Node `i` has a parent in `[lo, i)` whose children list holds `i`. */
  ghost predicate Hangs(a: seq<NodeRec>, i: nat, lo: nat)
    requires i < |a|
  {
    && a[i].parent.Some?
    && lo <= a[i].parent.value < i
    && i in a[a[i].parent.value].children
  }

  /** Wiring survives a change of table that keeps the node and its children's descriptions and parents. */
  lemma WiredTransfer(a: seq<NodeRec>, r: seq<NodeRec>, i: nat, lo: nat, lo': nat)
    requires i < |a| <= |r| && lo' <= lo
    requires Wired(a, i, lo)
    requires r[i].desc == a[i].desc && r[i].children == a[i].children
    requires forall c :: lo <= c < |a| ==> r[c].desc == a[c].desc && r[c].parent == a[c].parent
    ensures Wired(r, i, lo')
  {
    match a[i].desc.children
    case Absent =>
    case Present(cs) =>
      forall k | 0 <= k < |cs|
        ensures var c := r[i].children[k];
          lo' <= c && i < c < |r| && c == r[i].children[0] + k && r[c].desc == cs[k] && r[c].parent == Some(i)
      {
        var c := a[i].children[k];
        assert lo <= c < |a|;
      }
  }

  /** `r` is `a` with the fresh ids `m`, ..., `m + n - 1` linked below `p`, record by record. */
  ghost predicate Relinked(a: seq<NodeRec>, r: seq<NodeRec>, p: nat, m: nat, n: nat)
  {
    && p < m && m + n <= |a| && |r| == |a|
    && r[p] == a[p].(children := Ids(m, n))
    && (forall i :: m <= i < m + n ==> r[i] == a[i].(parent := Some(p)))
    && (forall i :: 0 <= i < |a| && i != p && !(m <= i < m + n) ==> r[i] == a[i])
  }

  lemma LinkAt(a: seq<NodeRec>, p: nat, m: nat, n: nat)
    requires p < m && m + n <= |a|
    ensures Relinked(a, Link(a, p, Ids(m, n)), p, m, n)
  {
    var kids := Ids(m, n);
    assert forall i :: i in kids <==> m <= i < m + n by {
      forall i ensures i in kids <==> m <= i < m + n {
        if m <= i < m + n {
          assert kids[i - m] == i;
        }
      }
    }
  }

  /**
   * `r` is what the second phase leaves of `a` for the `n` nodes at ids
   * `id`, ...: nothing else below `|a|` changes, those nodes only gain
   * their children lists, and every node added is wired and hangs below a
   * node from `id` on.
   */
  ghost predicate Descended(a: seq<NodeRec>, r: seq<NodeRec>, id: nat, n: nat)
  {
    && id + n <= |a| <= |r|
    && (forall i :: 0 <= i < |a| && !(id <= i < id + n) ==> r[i] == a[i])
    && (forall i :: id <= i < id + n ==> r[i] == a[i].(children := r[i].children) && Wired(r, i, |a|))
    && (forall i :: |a| <= i < |r| ==>
          && r[i].id == i && Wired(r, i, |a|) && Hangs(r, i, id)
          && (r[i].parent.value < id + n || |a| <= r[i].parent.value))
  }

  /** One node handled, then the `n` nodes after it: `n + 1` nodes handled. */
  lemma DescendedCompose(a: seq<NodeRec>, b: seq<NodeRec>, c: seq<NodeRec>, id: nat, n: nat)
    requires id + n + 1 <= |a|
    requires Descended(a, b, id, 1) && Descended(b, c, id + 1, n)
    ensures Descended(a, c, id, n + 1)
  {
    forall i | id <= i < id + n + 1
      ensures c[i] == a[i].(children := c[i].children) && Wired(c, i, |a|)
    {
      if i == id {
        assert c[id] == b[id];
        WiredTransfer(b, c, i, |a|, |a|);
      } else {
        WiredTransfer(c, c, i, |b|, |a|);
      }
    }
    forall i | |a| <= i < |c|
      ensures c[i].id == i && Wired(c, i, |a|) && Hangs(c, i, id)
      ensures c[i].parent.value < id + n + 1 || |a| <= c[i].parent.value
    {
      if i < |b| {
        WiredTransfer(b, c, i, |a|, |a|);
        var p := b[i].parent.value;
        assert c[p] == b[p];
      } else {
        WiredTransfer(c, c, i, |b|, |a|);
      }
    }
  }

  /** What one step of the second phase does to the table it is given. */
  lemma {:induction false} AdoptShape(a: seq<NodeRec>, id: nat, d: NodeDesc)
    requires id < |a| && a[id].children == [] && a[id].desc == d
    ensures Descended(a, Adopt(a, id, d), id, 1)
    decreases CountNode(d) - 1, 2
  {
    match d.children
    case Absent =>
    case Present(cs) =>
      CountCoversBatch(cs);
      BuildShape(a, cs);
      LinkShape(a, Build(a, cs).0, id, cs);
  }

  /** Linking a freshly built children batch below node `id`. */
  lemma LinkShape(a: seq<NodeRec>, a2: seq<NodeRec>, id: nat, cs: seq<NodeDesc>)
    requires id < |a| && a[id].children == [] && a[id].desc.children == Present(cs)
    requires Built(a, a2, cs)
    ensures Descended(a, Link(a2, id, Ids(|a|, |cs|)), id, 1)
  {
    LinkAt(a2, id, |a|, |cs|);
    RelinkedShape(a, a2, Link(a2, id, Ids(|a|, |cs|)), id, cs);
  }

  lemma RelinkedShape(a: seq<NodeRec>, a2: seq<NodeRec>, r: seq<NodeRec>, id: nat, cs: seq<NodeDesc>)
    requires id < |a| && a[id].children == [] && a[id].desc.children == Present(cs)
    requires Built(a, a2, cs)
    requires Relinked(a2, r, id, |a|, |cs|)
    ensures Descended(a, r, id, 1)
  {
    RelinkedKeepsOld(a, a2, r, id, |cs|);
    RelinkedParent(a, a2, r, id, cs);
    RelinkedAdded(a, a2, r, id, cs);
  }

  /** Linking leaves the records before the batch other than the parent as they were. */
  lemma RelinkedKeepsOld(a: seq<NodeRec>, a2: seq<NodeRec>, r: seq<NodeRec>, id: nat, n: nat)
    requires |a| <= |a2| && forall i :: 0 <= i < |a| ==> a2[i] == a[i]
    requires Relinked(a2, r, id, |a|, n)
    ensures forall i :: 0 <= i < |a| && i != id ==> r[i] == a[i]
  {
    forall i | 0 <= i < |a| && i != id ensures r[i] == a[i] {
      assert r[i] == a2[i];
    }
  }

  /** The parent gains exactly the batch as its children, wired to its description. */
  lemma RelinkedParent(a: seq<NodeRec>, a2: seq<NodeRec>, r: seq<NodeRec>, id: nat, cs: seq<NodeDesc>)
    requires id < |a| && a[id].desc.children == Present(cs)
    requires Built(a, a2, cs)
    requires Relinked(a2, r, id, |a|, |cs|)
    ensures r[id] == a[id].(children := r[id].children) && Wired(r, id, |a|)
  {
    var m := |a|;
    var n := |cs|;
    assert r[id] == a[id].(children := Ids(m, n));
    forall k | 0 <= k < n
      ensures r[m + k].desc == cs[k] && r[m + k].parent == Some(id)
    {
      assert r[m + k] == a2[m + k].(parent := Some(id));
    }
  }

  /** Every record added by building the batch is wired and hangs below the parent or a later record. */
  lemma RelinkedAdded(a: seq<NodeRec>, a2: seq<NodeRec>, r: seq<NodeRec>, id: nat, cs: seq<NodeDesc>)
    requires id < |a|
    requires Built(a, a2, cs)
    requires Relinked(a2, r, id, |a|, |cs|)
    ensures forall i :: |a| <= i < |r| ==>
      && r[i].id == i && Wired(r, i, |a|) && Hangs(r, i, id)
      && (r[i].parent.value < id + 1 || |a| <= r[i].parent.value)
  {
    var m := |a|;
    var n := |cs|;
    forall i | m <= i < |r|
      ensures r[i].id == i && Wired(r, i, m) && Hangs(r, i, id)
      ensures r[i].parent.value < id + 1 || m <= r[i].parent.value
    {
      RelinkedNode(a2, r, id, m, n, i);
    }
  }

  /** A record added while building the children batch, after linking it below `id`. */
  lemma RelinkedNode(a2: seq<NodeRec>, r: seq<NodeRec>, id: nat, m: nat, n: nat, i: nat)
    requires Relinked(a2, r, id, m, n)
    requires m <= i < |a2|
    requires a2[i].id == i && Wired(a2, i, m + n)
    requires m + n <= i ==> Hangs(a2, i, m)
    ensures r[i].id == i && Wired(r, i, m) && Hangs(r, i, id)
    ensures r[i].parent.value < id + 1 || m <= r[i].parent.value
  {
    forall c | m + n <= c < |a2| ensures r[c] == a2[c] {
    }
    WiredTransfer(a2, r, i, m + n, m);
    if i < m + n {
      assert r[i].parent == Some(id);
      assert r[id].children[i - m] == i;
    } else {
      var p := a2[i].parent.value;
      assert r[p].children == a2[p].children;
    }
  }

  /** The nodes at ids `id`, ... are made from `batch` and have no children yet. */
  ghost predicate Unlinked(a: seq<NodeRec>, id: nat, batch: seq<NodeDesc>)
  {
    && id + |batch| <= |a|
    && forall k :: 0 <= k < |batch| ==> UnlinkedNode(a, id, batch, k)
  }

  /** The node at id `id + k` is made from `batch[k]` and has no children yet. */
  ghost predicate UnlinkedNode(a: seq<NodeRec>, id: nat, batch: seq<NodeDesc>, k: int)
  {
    0 <= k < |batch| && id + k < |a| && a[id + k].children == [] && a[id + k].desc == batch[k]
  }

  lemma UnlinkedAt(a: seq<NodeRec>, id: nat, batch: seq<NodeDesc>, k: nat)
    requires Unlinked(a, id, batch) && k < |batch|
    ensures id + k < |a| && a[id + k].children == [] && a[id + k].desc == batch[k]
  {
    assert UnlinkedNode(a, id, batch, k);
  }

  /** What the second phase does to the table it is given. */
  lemma {:induction false} DescendShape(a: seq<NodeRec>, id: nat, batch: seq<NodeDesc>)
    requires Unlinked(a, id, batch)
    ensures Descended(a, Descend(a, id, batch), id, |batch|)
    decreases Count(batch), 0
  {
    if batch == [] {
      return;
    }
    var rest := batch[1..];
    assert Count(batch) == CountNode(batch[0]) + Count(rest);
    UnlinkedAt(a, id, batch, 0);
    AdoptShape(a, id, batch[0]);
    var b := Adopt(a, id, batch[0]);
    var id' := id + 1;
    UnlinkedAfter(a, b, id, batch);
    DescendShape(b, id', rest);
    DescendStep(a, id, batch);
    DescendedCompose(a, b, Descend(b, id', rest), id, |rest|);
  }

  /** Once the first node of the batch has its children, the rest of the batch is still unlinked. */
  lemma UnlinkedAfter(a: seq<NodeRec>, b: seq<NodeRec>, id: nat, batch: seq<NodeDesc>)
    requires batch != [] && Unlinked(a, id, batch) && Descended(a, b, id, 1)
    ensures Unlinked(b, id + 1, batch[1..])
  {
    var rest := batch[1..];
    var id' := id + 1;
    forall k | 0 <= k < |rest| ensures UnlinkedNode(b, id', rest, k) {
      UnlinkedAt(a, id, batch, k + 1);
      assert id + (k + 1) == id' + k;
      assert b[id' + k] == a[id' + k];
    }
  }

  /**
   * `r` is what `buildTree($batch)` leaves of `a`: the old records are
   * untouched, the batch sits unlinked at ids `|a|`, ..., and every record
   * from `|a|` on is wired; the ones after the batch hang below a node from
   * `|a|` on.
   */
  ghost predicate Built(a: seq<NodeRec>, r: seq<NodeRec>, batch: seq<NodeDesc>)
  {
    && |a| + |batch| <= |r|
    && (forall i :: 0 <= i < |a| ==> r[i] == a[i])
    && (forall k :: 0 <= k < |batch| ==> r[|a| + k] == NodeRec(|a| + k, batch[k], None, r[|a| + k].children))
    && (forall i :: |a| <= i < |r| ==> r[i].id == i && Wired(r, i, |a| + |batch|))
    && (forall i :: |a| + |batch| <= i < |r| ==> Hangs(r, i, |a|))
  }

  /** What `buildTree` does to the table it is given. */
  lemma {:induction false} BuildShape(a: seq<NodeRec>, batch: seq<NodeDesc>)
    ensures Built(a, Build(a, batch).0, batch)
    decreases Count(batch), 1
  {
    CountCoversBatch(batch);
    var first := |a|;
    var a1 := a + Allocate(first, batch);
    assert forall k :: 0 <= k < |batch| ==> a1[first + k] == NewNode(first + k, batch[k]);
    forall k | 0 <= k < |batch| ensures UnlinkedNode(a1, first, batch, k) {
      assert a1[first + k] == NewNode(first + k, batch[k]);
    }
    assert Unlinked(a1, first, batch);
    DescendShape(a1, first, batch);
    assert a1[..first] == a;
    DescendedBuilt(a, a1, Build(a, batch).0, batch);
  }

  lemma DescendedBuilt(a: seq<NodeRec>, a1: seq<NodeRec>, r: seq<NodeRec>, batch: seq<NodeDesc>)
    requires |a1| == |a| + |batch| && a1[..|a|] == a
    requires forall k :: 0 <= k < |batch| ==> a1[|a| + k] == NewNode(|a| + k, batch[k])
    requires Descended(a1, r, |a|, |batch|)
    ensures Built(a, r, batch)
  {
    DescendedKeepsOld(a, a1, r, |batch|);
    DescendedBatch(a, a1, r, batch);
    DescendedWired(a1, r, |a|, batch);
  }

  /** The second phase leaves the records before the batch as they were. */
  lemma DescendedKeepsOld(a: seq<NodeRec>, a1: seq<NodeRec>, r: seq<NodeRec>, n: nat)
    requires |a1| == |a| + n && a1[..|a|] == a
    requires Descended(a1, r, |a|, n)
    ensures forall i :: 0 <= i < |a| ==> r[i] == a[i]
  {
    forall i | 0 <= i < |a| ensures r[i] == a[i] {
      assert r[i] == a1[i] && a1[..|a|][i] == a1[i];
    }
  }

  /** The batch records keep their ids, descriptions and missing parents; only their children change. */
  lemma DescendedBatch(a: seq<NodeRec>, a1: seq<NodeRec>, r: seq<NodeRec>, batch: seq<NodeDesc>)
    requires |a1| == |a| + |batch|
    requires forall k :: 0 <= k < |batch| ==> a1[|a| + k] == NewNode(|a| + k, batch[k])
    requires Descended(a1, r, |a|, |batch|)
    ensures forall k :: 0 <= k < |batch| ==> r[|a| + k] == NodeRec(|a| + k, batch[k], None, r[|a| + k].children)
  {
    forall k | 0 <= k < |batch| ensures r[|a| + k] == NodeRec(|a| + k, batch[k], None, r[|a| + k].children) {
      assert a1[|a| + k] == NewNode(|a| + k, batch[k]);
      assert r[|a| + k] == a1[|a| + k].(children := r[|a| + k].children);
    }
  }

  /** Every record from the batch on has its own id and is wired. */
  lemma DescendedWired(a1: seq<NodeRec>, r: seq<NodeRec>, n0: nat, batch: seq<NodeDesc>)
    requires |a1| == n0 + |batch|
    requires forall k :: 0 <= k < |batch| ==> a1[n0 + k] == NewNode(n0 + k, batch[k])
    requires Descended(a1, r, n0, |batch|)
    ensures forall i :: n0 <= i < |r| ==> r[i].id == i && Wired(r, i, n0 + |batch|)
  {
    forall i | n0 <= i < |r| ensures r[i].id == i && Wired(r, i, n0 + |batch|) {
      if i < |a1| {
        assert a1[n0 + (i - n0)] == NewNode(n0 + (i - n0), batch[i - n0]);
        assert r[i] == a1[i].(children := r[i].children);
      }
    }
  }

  // ---------------------------------------------------------------------
  // The tree built from one root description
  // ---------------------------------------------------------------------

  /**
   * A well-formed arena: record `i` has id `i`, every record is wired to
   * its description, the root (id 0) has no parent and every other record
   * hangs below a record with a smaller id.
   */
  ghost predicate Tree(a: seq<NodeRec>)
  {
    && |a| > 0
    && a[0].parent == None
    && forall i :: 0 <= i < |a| ==> a[i].id == i && Wired(a, i, 0) && (i > 0 ==> Hangs(a, i, 0))
  }

  /** The arena the constructor builds from the root description `root`. */
  function Arena(root: NodeDesc): seq<NodeRec>
  {
    Build([], [root]).0
  }

  /**
   * `buildTree(array($tree))` on an empty arena: one record per node
   * description, nested ones included, the root at id 0 made from `root`,
   * and the arena is a well-formed tree.
   */
  lemma ArenaIsTree(root: NodeDesc)
    ensures |Arena(root)| == CountNode(root)
    ensures Arena(root)[0].desc == root
    ensures Tree(Arena(root))
  {
    var a := Arena(root);
    assert Count([root]) == CountNode(root) + Count([]);
    BuildShape([], [root]);
    assert a[0 + 0] == NodeRec(0, root, None, a[0].children);
    forall i | 0 <= i < |a| ensures Wired(a, i, 0) {
      WiredTransfer(a, a, i, 1, 0);
    }
  }

  /** In a well-formed tree, `c` is listed among `p`'s children exactly when `c`'s parent is `p`. */
  lemma ChildIffParent(a: seq<NodeRec>, p: nat, c: nat)
    requires Tree(a) && p < |a| && c < |a|
    ensures c in a[p].children <==> a[c].parent == Some(p)
  {
    if c in a[p].children {
      var k :| 0 <= k < |a[p].children| && a[p].children[k] == c;
      assert a[p].desc.children.Present?;
    }
    if a[c].parent == Some(p) {
      assert c > 0;
    }
  }

  /** Each entry of `path` is a record of `a` whose parent is the next entry, which has a smaller id. */
  ghost predicate ParentChain(a: seq<NodeRec>, path: seq<nat>)
  {
    && (forall k :: 0 <= k < |path| ==> path[k] < |a|)
    && (forall k :: 0 <= k < |path| - 1 ==> a[path[k]].parent == Some(path[k + 1]) && path[k + 1] < path[k])
  }

  lemma ChainCons(a: seq<NodeRec>, i: nat, rest: seq<nat>)
    requires i < |a| && rest != [] && a[i].parent == Some(rest[0]) && rest[0] < i
    requires ParentChain(a, rest)
    ensures ParentChain(a, [i] + rest)
  {
    var path := [i] + rest;
    forall k | 0 <= k < |path| - 1
      ensures a[path[k]].parent == Some(path[k + 1]) && path[k + 1] < path[k]
    {
      if k > 0 {
        assert path[k] == rest[k - 1] && path[k + 1] == rest[k];
      }
    }
  }

  /** In a well-formed tree every record but the root hangs below a record with a smaller id. */
  lemma ParentBelow(a: seq<NodeRec>, i: nat)
    requires Tree(a) && 0 < i < |a|
    ensures a[i].parent.Some? && a[i].parent.value < i
  {
    assert Hangs(a, i, 0);
  }

  /**
   * The parent chain from record `i` up to the root: it starts at `i`,
   * each entry is the parent of the one before, ids strictly decrease and
   * it ends at the root.
   */
  function PathToRoot(a: seq<NodeRec>, i: nat): (path: seq<nat>)
    requires Tree(a) && i < |a|
    ensures |path| > 0 && path[0] == i && path[|path| - 1] == 0
    ensures ParentChain(a, path)
    decreases i
  {
    if i == 0 then [0]
    else
      ParentBelow(a, i);
      var rest := PathToRoot(a, a[i].parent.value);
      ChainCons(a, i, rest);
      [i] + rest
  }
}
