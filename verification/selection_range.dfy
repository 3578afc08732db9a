/** Selection ranges (src/capabilities/selection_range.rs): for each cursor,
    the leaf's range, then its parent's, and so on up to the root. */
module SelectionRange {
  import opened Lsp
  import opened Syntax
  import opened Util

  datatype SelectionRange = SelectionRange(range: Range, parent: Option<SelectionRange>)

  /** mk_range: node i's range, enclosed by its parent's selection range. */
  function MkRange(nodes: seq<Node>, i: nat): (r: SelectionRange)
    requires ParentsPrecede(nodes) && i < |nodes|
    ensures r.range == nodes[i].range
    ensures r.parent.None? <==> nodes[i].parent.None?
    decreases i
  {
    SelectionRange(nodes[i].range,
      match nodes[i].parent
      case None => None
      case Some(p) => Some(MkRange(nodes, p)))
  }

  /** The ranges of a selection range, innermost first. */
  function Ranges(s: SelectionRange): seq<Range>
    decreases s
  {
    [s.range] + match s.parent
      case None => []
      case Some(p) => Ranges(p)
  }

  /** The ranges of a parent chain. */
  function ChainRanges(nodes: seq<Node>, chain: seq<nat>): (r: seq<Range>)
    requires forall k :: 0 <= k < |chain| ==> chain[k] < |nodes|
    ensures |r| == |chain|
    ensures forall k :: 0 <= k < |chain| ==> r[k] == nodes[chain[k]].range
  {
    seq(|chain|, k requires 0 <= k < |chain| => nodes[chain[k]].range)
  }

  lemma ChainRangesCons(nodes: seq<Node>, i: nat, chain: seq<nat>)
    requires i < |nodes| && forall k :: 0 <= k < |chain| ==> chain[k] < |nodes|
    ensures ChainRanges(nodes, [i] + chain) == [nodes[i].range] + ChainRanges(nodes, chain)
  {
  }

  /** A selection range lists exactly the ranges of the node's ancestors-or-
      self, from the node up to the root: one level per get_parent. */
  lemma {:induction false} MkRangeFollowsChain(nodes: seq<Node>, i: nat)
    requires ParentsPrecede(nodes) && i < |nodes|
    ensures Ranges(MkRange(nodes, i)) == ChainRanges(nodes, Chain(nodes, i))
    decreases i
  {
    match nodes[i].parent
    case None =>
    case Some(p) =>
      MkRangeFollowsChain(nodes, p);
      var up := Chain(nodes, p);
      assert Chain(nodes, i) == [i] + up;
      ChainRangesCons(nodes, i, up);
  }

  /** Every requested position has a leaf (the handler unwraps it). */
  predicate LeavesExist(nodes: seq<Node>, positions: seq<Position>)
    requires Sorted(nodes)
  {
    forall k :: 0 <= k < |positions| ==> LeafAt(nodes, positions[k]).Some?
  }

  /** selection_range: one selection range per position, in order, starting
      at that position's leaf and climbing to the root. */
  function SelectionRanges(nodes: seq<Node>, positions: seq<Position>): (r: Option<seq<SelectionRange>>)
    requires Sorted(nodes) && ParentsPrecede(nodes)
    requires LeavesExist(nodes, positions)
    ensures r.Some? && |r.value| == |positions|
    ensures forall k :: 0 <= k < |positions| ==>
      var leaf := LeafAt(nodes, positions[k]).value;
      r.value[k].range == nodes[leaf].range && Covers(r.value[k].range, positions[k]) &&
      Ranges(r.value[k]) == ChainRanges(nodes, Chain(nodes, leaf))
  {
    var ranges := seq(|positions|, k requires 0 <= k < |positions| => MkRange(nodes, LeafAt(nodes, positions[k]).value));
    forall k | 0 <= k < |positions|
      ensures Ranges(ranges[k]) == ChainRanges(nodes, Chain(nodes, LeafAt(nodes, positions[k]).value))
    {
      MkRangeFollowsChain(nodes, LeafAt(nodes, positions[k]).value);
    }
    Some(ranges)
  }
}
