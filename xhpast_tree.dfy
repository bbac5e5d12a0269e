/**
 * XHPASTTree: the node arena, the token stream, the raw source and the
 * memoised offset-to-line map of one parsed PHP file.
 */
module XhpastTree {
  import opened Php
  import opened XhpastBuild
  import opened XhpastTokens
  import opened XhpastLines
  import opened XhpastParse
  import opened XhpastRender

  class XHPASTTree {
    /** The node arena: node `i` sits at index `i`. */
    var tree: seq<NodeRec>
    /** The token stream: token `i` sits at index `i`. */
    var stream: seq<Token>
    /** The offset-to-line map, once computed. */
    var lineMap: Option<seq<nat>>
    var rawSource: string
    /** Set by `dispose`, which unsets the arena and the stream. */
    var disposed: bool

    /** The description and the raw token stream the tree was made from. */
    ghost var root: NodeDesc
    ghost var raw: seq<RawToken>

    ghost predicate Valid()
      reads this
    {
      && (!disposed ==> tree == Arena(root) && stream == Tokens(rawSource, raw))
      && (disposed ==> tree == [] && stream == [])
      && (lineMap.Some? ==> lineMap.value == LineMap(rawSource))
    }

    /**
     * `new XHPASTTree($tree, $stream, $source)`: the tokens sliced from the
     * source at running offsets, then the arena built from the one root.
     */
    constructor (rootDesc: NodeDesc, rawStream: seq<RawToken>, source: string)
      ensures Valid() && !disposed
      ensures root == rootDesc && raw == rawStream && rawSource == source && lineMap == None
      ensures tree == Arena(rootDesc) && stream == Tokens(source, rawStream)
    {
      tree := [];
      lineMap := None;
      disposed := false;
      root := rootDesc;
      raw := rawStream;
      var ii := 0;
      var offset := 0;
      var tokens := [];
      while ii < |rawStream|
        invariant ii <= |rawStream| && offset == Offset(rawStream, ii)
        invariant tokens == Tokens(source, rawStream)[..ii]
      {
        var token := rawStream[ii];
        tokens := tokens + [Token(ii, token.kind, Substr(source, offset, token.len), offset)];
        OffsetStep(rawStream, ii);
        offset := offset + token.len;
        ii := ii + 1;
      }
      stream := tokens;
      rawSource := source;
      new;
      var _ := BuildTree([rootDesc]);
    }

    /**
     * `buildTree($batch)`: appends one node per description of the batch,
     * with consecutive ids, then gives each its children batch, built the
     * same way, and links them below it; returns the batch's ids.
     */
    method BuildTree(batch: seq<NodeDesc>) returns (ids: seq<nat>)
      modifies this`tree
      ensures (tree, ids) == Build(old(tree), batch)
      decreases Count(batch), 1
    {
      var first := |tree|;
      AllocateBatch(batch);
      CountCoversBatch(batch);
      AdoptBatch(first, batch);
      ids := [];
      var k := 0;
      while k < |batch|
        invariant k <= |batch| && ids == Ids(first, k)
      {
        ids := ids + [first + k];
        k := k + 1;
      }
    }

    /** The first loop of `buildTree`: a fresh node per description, ids counting up from the arena size. */
    method AllocateBatch(batch: seq<NodeDesc>)
      modifies this`tree
      ensures tree == old(tree) + Allocate(|old(tree)|, batch)
    {
      var first := |tree|;
      var k := 0;
      while k < |batch|
        invariant k <= |batch| && tree == old(tree) + Allocate(first, batch[..k])
      {
        assert Allocate(first, batch[..k + 1]) == Allocate(first, batch[..k]) + [NewNode(first + k, batch[k])];
        tree := tree + [NewNode(first + k, batch[k])];
        k := k + 1;
      }
      assert batch[..|batch|] == batch;
    }

    /** The second loop of `buildTree`: each node of the batch, in order, gets its children. */
    method AdoptBatch(first: nat, batch: seq<NodeDesc>)
      requires first + |batch| <= |tree|
      modifies this`tree
      ensures tree == Descend(old(tree), first, batch)
      decreases Count(batch), 0
    {
      ghost var goal := Descend(tree, first, batch);
      var k := 0;
      while k < |batch|
        invariant k <= |batch| && first + |batch| <= |tree|
        invariant Descend(tree, first + k, batch[k..]) == goal
      {
        ghost var before := tree;
        ghost var rest := batch[k..];
        assert rest[0] == batch[k] && rest[1..] == batch[k + 1..];
        DescendStep(before, first + k, rest);
        CountNodeBelow(batch, k);
        AdoptChildren(first + k, batch[k]);
        assert Descend(tree, first + k + 1, rest[1..]) == goal;
        k := k + 1;
      }
      assert Descend(tree, first + |batch|, []) == tree;
    }

    /** The body of the second loop: node `nodeId`, made from `node`, gets its children batch, if it has one. */
    method AdoptChildren(nodeId: nat, node: NodeDesc)
      requires nodeId < |tree|
      modifies this`tree
      ensures tree == Adopt(old(tree), nodeId, node)
      decreases CountNode(node) - 1, 2
    {
      if node.children.Present? {
        BuildInArena(tree, node.children.descs);
        var children := BuildTree(node.children.descs);
        LinkChildren(nodeId, children);
      }
    }

    /** `$child->parentNode = $parent` for each child, then `$parent->children = $children`. */
    method LinkChildren(nodeId: nat, children: seq<nat>)
      requires nodeId < |tree| && InArena(tree, children)
      modifies this`tree
      ensures tree == Link(old(tree), nodeId, children)
    {
      var j := 0;
      while j < |children|
        invariant j <= |children| && |tree| == |old(tree)| && InArena(tree, children[j..])
        invariant SetParents(tree, nodeId, children[j..]) == SetParents(old(tree), nodeId, children)
      {
        var child := children[j];
        assert children[j..][0] == child && children[j..][1..] == children[j + 1..];
        tree := tree[child := tree[child].(parent := Some(nodeId))];
        j := j + 1;
      }
      assert children[j..] == [];
      tree := tree[nodeId := tree[nodeId].(children := children)];
    }

    /** `dispose()`: the arena and the stream are gone; the source and the line map stay. */
    method Dispose()
      requires Valid()
      modifies this`tree, this`stream, this`disposed
      ensures Valid() && disposed && tree == [] && stream == []
    {
      tree := [];
      stream := [];
      disposed := true;
    }

    /** `getRootNode()`: node 0, made from the root description; nothing once disposed. */
    function GetRootNode(): (r: Option<NodeRec>)
      reads this
      requires Valid()
      ensures !disposed ==> |tree| > 0 && r == Some(tree[0])
      ensures !disposed ==> r.Some? && r.value.id == 0 && r.value.desc == root && r.value.parent == None
      ensures disposed ==> r == None
    {
      if disposed then None
      else
        ArenaIsTree(root);
        Some(tree[0])
    }

    /** `getRawTokenStream()`: nothing once disposed. */
    function GetRawTokenStream(): (r: Option<seq<Token>>)
      reads this
      requires Valid()
      ensures !disposed ==> r == Some(Tokens(rawSource, raw))
      ensures disposed ==> r == None
    {
      if disposed then None else Some(stream)
    }

    /** `getOffsetToLineNumberMap()`: computed on the first call, then returned as stored. */
    method GetOffsetToLineNumberMap() returns (lines: seq<nat>)
      requires Valid()
      modifies this`lineMap
      ensures Valid() && lines == LineMap(rawSource) && lineMap == Some(lines)
      ensures old(lineMap).Some? ==> lineMap == old(lineMap)
    {
      if lineMap.None? {
        var computed := ComputeLineMap(rawSource);
        lineMap := Some(computed);
      }
      lines := lineMap.value;
    }

    /** `renderAsText()`: the root and everything below it, one line per node. */
    method RenderAsText(describe: NodeRec -> string) returns (text: string)
      requires Valid() && !disposed
      ensures |tree| > 0 && ChildrenAbove(tree)
      ensures text == RenderNode(tree, 0, 0, describe)
    {
      ArenaIsTree(root);
      TreeChildrenAbove(tree);
      text := ExecuteRenderAsText([0], 0, 0, describe);
      assert RenderList(tree, [0], 0, 0, describe) == RenderNode(tree, 0, 0, describe) + "";
    }

    /** `executeRenderAsText($list, $depth)`: each node's line, then its children one level deeper. */
    method ExecuteRenderAsText(list: seq<nat>, depth: nat, ghost lo: nat, describe: NodeRec -> string) returns (text: string)
      requires ChildrenAbove(tree) && Between(tree, list, lo)
      ensures text == RenderList(tree, list, depth, lo, describe)
      decreases |tree| - lo, 2
    {
      ghost var a := tree;
      ghost var total := RenderList(a, list, depth, lo, describe);
      text := "";
      var k := 0;
      while k < |list|
        invariant k <= |list|
        invariant text + RenderList(a, list[k..], depth, lo, describe) == total
      {
        var node := list[k];
        RenderListAt(a, list, k, depth, lo, describe);
        ghost var before := text;
        if depth != 0 {
          text := text + Repeat("  ", depth);
        }
        text := text + describe(tree[node]) + "\n";
        assert text == before + Indent(depth) + describe(a[node]) + "\n" by {
          if depth == 0 {
            assert before + "" == before;
          }
        }
        var below := ExecuteRenderAsText(tree[node].children, depth + 1, node + 1, describe);
        RenderStep(a, list, k, depth, lo, describe, before, below);
        text := text + below;
        k := k + 1;
      }
      assert list[k..] == [];
    }

    /**
     * `newFromDataAndResolvedExecFuture($source, $resolved)`: a tree when
     * the parser run succeeded, otherwise the error it is classified as.
     */
    static method NewFromDataAndResolvedExecFuture(source: string, err: int, decoded: Option<Decoded>, stderr: string)
      returns (r: Result<XHPASTTree, ParseError>)
      ensures Classify(err, decoded, stderr).Err? ==> r == Err(Classify(err, decoded, stderr).error)
      ensures Classify(err, decoded, stderr).Ok? ==>
        && r.Ok? && fresh(r.value) && r.value.Valid() && !r.value.disposed
        && r.value.tree == Arena(Classify(err, decoded, stderr).value.root)
        && r.value.stream == Tokens(source, Classify(err, decoded, stderr).value.stream)
        && r.value.rawSource == source && r.value.lineMap == None
    {
      match Classify(err, decoded, stderr)
      case Err(e) =>
        r := Err(e);
      case Ok(data) =>
        var t := new XHPASTTree(data.root, data.stream, source);
        r := Ok(t);
    }
  }

  /** The loop of `getOffsetToLineNumberMap`: the line of each byte, counting newlines as it goes. */
  method ComputeLineMap(src: string) returns (lines: seq<nat>)
    ensures lines == LineMap(src)
  {
    var lno := 1;
    lines := [];
    var ii := 0;
    while ii < |src|
      invariant ii <= |src| && lno == 1 + Newlines(src[..ii])
      invariant lines == LineMap(src)[..ii]
    {
      lines := lines + [lno];
      NewlinesStep(src, ii);
      if src[ii] == '\n' {
        lno := lno + 1;
      }
      ii := ii + 1;
    }
  }
}
