/**
 * `renderAsText` of XHPASTTree: one line per node, depth first, each line
 * indented by two spaces per level and holding the node's description.
 * The description itself belongs to XHPASTNode and is a parameter here.
 */
module XhpastRender {
  import opened Php
  import opened XhpastBuild
  import opened XhpastLines

  /** Every child id lies above its parent's id and inside the arena. */
  ghost predicate ChildrenAbove(a: seq<NodeRec>)
  {
    forall i, k :: 0 <= i < |a| && 0 <= k < |a[i].children| ==> i < a[i].children[k] < |a|
  }

  /** Every id of `ids` lies in `[lo, |a|)`. */
  ghost predicate Between(a: seq<NodeRec>, ids: seq<nat>, lo: nat)
  {
    forall k :: 0 <= k < |ids| ==> lo <= ids[k] < |a|
  }

  /** The indentation of a line at `depth`: nothing at depth 0, else two spaces per level. */
  function Indent(depth: nat): string
  {
    if depth != 0 then Repeat("  ", depth) else ""
  }

  /** The text of node `i` at `depth`: its line, then its children one level deeper. */
  function RenderNode(a: seq<NodeRec>, i: nat, depth: nat, describe: NodeRec -> string): string
    requires ChildrenAbove(a) && i < |a|
    decreases |a| - i, 1
  {
    Indent(depth) + describe(a[i]) + "\n" + RenderList(a, a[i].children, depth + 1, i + 1, describe)
  }

  /** The text of the nodes `ids`, in order, all at `depth`; `lo` bounds the ids from below. */
  function RenderList(a: seq<NodeRec>, ids: seq<nat>, depth: nat, ghost lo: nat, describe: NodeRec -> string): string
    requires ChildrenAbove(a) && Between(a, ids, lo)
    decreases |a| - lo, 2, |ids|
  {
    if ids == [] then ""
    else RenderNode(a, ids[0], depth, describe) + RenderList(a, ids[1..], depth, lo, describe)
  }

  /** The nodes of `ids` from `k` on render as node `ids[k]`, then the ones after it. */
  lemma RenderListAt(a: seq<NodeRec>, ids: seq<nat>, k: nat, depth: nat, lo: nat, describe: NodeRec -> string)
    requires ChildrenAbove(a) && Between(a, ids, lo) && k < |ids|
    ensures Between(a, ids[k..], lo) && Between(a, ids[k + 1..], lo) && Between(a, a[ids[k]].children, ids[k] + 1)
    ensures RenderList(a, ids[k..], depth, lo, describe)
         == RenderNode(a, ids[k], depth, describe) + RenderList(a, ids[k + 1..], depth, lo, describe)
  {
    assert ids[k..][0] == ids[k] && ids[k..][1..] == ids[k + 1..];
  }

  /** The text of a node is its own line followed by the text of its children. */
  lemma RenderNodeSplit(a: seq<NodeRec>, i: nat, depth: nat, describe: NodeRec -> string, below: string)
    requires ChildrenAbove(a) && i < |a| && Between(a, a[i].children, i + 1)
    requires below == RenderList(a, a[i].children, depth + 1, i + 1, describe)
    ensures RenderNode(a, i, depth, describe) == (Indent(depth) + describe(a[i]) + "\n") + below
  {
  }

  /** Appending node `ids[k]`'s line and its children's text to `before` moves the rendering one node on. */
  lemma RenderStep(a: seq<NodeRec>, ids: seq<nat>, k: nat, depth: nat, lo: nat, describe: NodeRec -> string,
                   before: string, below: string)
    requires ChildrenAbove(a) && Between(a, ids, lo) && k < |ids|
    requires below == RenderList(a, a[ids[k]].children, depth + 1, ids[k] + 1, describe)
    ensures Between(a, ids[k..], lo) && Between(a, ids[k + 1..], lo)
    ensures before + Indent(depth) + describe(a[ids[k]]) + "\n" + below + RenderList(a, ids[k + 1..], depth, lo, describe)
         == before + RenderList(a, ids[k..], depth, lo, describe)
  {
    RenderListAt(a, ids, k, depth, lo, describe);
    RenderNodeSplit(a, ids[k], depth, describe, below);
  }

  /** A well-formed tree has its children above their parents. */
  lemma TreeChildrenAbove(a: seq<NodeRec>)
    requires Tree(a)
    ensures ChildrenAbove(a)
  {
    forall i, k | 0 <= i < |a| && 0 <= k < |a[i].children|
      ensures i < a[i].children[k] < |a|
    {
      assert Wired(a, i, 0);
      assert a[i].desc.children.Present?;
    }
  }

  /** No line break comes from the indentation. */
  lemma {:induction false} IndentNoNewline(depth: nat)
    ensures Newlines(Indent(depth)) == 0
  {
    if depth != 0 {
      RepeatAbsent("  ", depth, '\n');
      NewlinesAbsent(Indent(depth));
    }
  }

  /** The line of one node holds exactly one line break when its description holds none. */
  lemma LineNewlines(depth: nat, text: string, rest: string)
    requires '\n' !in text
    ensures Newlines(Indent(depth) + text + "\n" + rest) == 1 + Newlines(rest)
  {
    IndentNoNewline(depth);
    NewlinesAbsent(text);
    NewlinesConcat(Indent(depth), text);
    NewlinesConcat(Indent(depth) + text, "\n");
    NewlinesConcat(Indent(depth) + text + "\n", rest);
    assert Newlines("\n") == Newlines([]) + 1;
  }

  /**
   * When no description holds a line break, the nodes `ids`, made from the
   * descriptions `batch`, render to one line per description, nested ones
   * included.
   */
  lemma {:induction false} RenderListLines(a: seq<NodeRec>, ids: seq<nat>, batch: seq<NodeDesc>, depth: nat,
                                           lo: nat, describe: NodeRec -> string)
    requires Tree(a) && ChildrenAbove(a) && Between(a, ids, lo)
    requires |ids| == |batch| && forall k :: 0 <= k < |ids| ==> a[ids[k]].desc == batch[k]
    requires forall i :: 0 <= i < |a| ==> '\n' !in describe(a[i])
    ensures Newlines(RenderList(a, ids, depth, lo, describe)) == Count(batch)
    decreases |a| - lo, 2, |ids|
  {
    if ids != [] {
      RenderNodeLines(a, ids[0], depth, describe);
      RenderListLines(a, ids[1..], batch[1..], depth, lo, describe);
      NewlinesConcat(RenderNode(a, ids[0], depth, describe), RenderList(a, ids[1..], depth, lo, describe));
    }
  }

  /** The nested descriptions of `d`; none when the field is absent. */
  function Nested(d: NodeDesc): seq<NodeDesc>
  {
    match d.children
    case Absent => []
    case Present(cs) => cs
  }

  /** In a well-formed tree, node `i`'s children are made from its nested descriptions, in order. */
  lemma ChildrenMadeFrom(a: seq<NodeRec>, i: nat)
    requires Tree(a) && i < |a|
    ensures |a[i].children| == |Nested(a[i].desc)| && Between(a, a[i].children, i + 1)
    ensures forall k :: 0 <= k < |a[i].children| ==> a[a[i].children[k]].desc == Nested(a[i].desc)[k]
    ensures CountNode(a[i].desc) == 1 + Count(Nested(a[i].desc))
  {
    assert Wired(a, i, 0);
  }

  /** Node `i` renders to one line per node description in its subtree. */
  lemma {:induction false} RenderNodeLines(a: seq<NodeRec>, i: nat, depth: nat, describe: NodeRec -> string)
    requires Tree(a) && ChildrenAbove(a) && i < |a|
    requires forall j :: 0 <= j < |a| ==> '\n' !in describe(a[j])
    ensures Newlines(RenderNode(a, i, depth, describe)) == CountNode(a[i].desc)
    decreases |a| - i, 1
  {
    ChildrenMadeFrom(a, i);
    var below := RenderList(a, a[i].children, depth + 1, i + 1, describe);
    RenderListLines(a, a[i].children, Nested(a[i].desc), depth + 1, i + 1, describe);
    LineNewlines(depth, describe(a[i]), below);
    RenderNodeSplit(a, i, depth, describe, below);
  }

  /** Rendering the arena built from `root`, from its root, gives one line per node. */
  lemma RenderArenaLines(root: NodeDesc, describe: NodeRec -> string)
    requires forall i :: 0 <= i < |Arena(root)| ==> '\n' !in describe(Arena(root)[i])
    ensures |Arena(root)| > 0 && ChildrenAbove(Arena(root))
    ensures Newlines(RenderNode(Arena(root), 0, 0, describe)) == |Arena(root)|
  {
    ArenaIsTree(root);
    TreeChildrenAbove(Arena(root));
    RenderNodeLines(Arena(root), 0, 0, describe);
  }
}
