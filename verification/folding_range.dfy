/** Folding ranges (src/capabilities/folding_range.rs): one fold per method,
    error, typedef, struct and enum. */
module FoldingRange {
  import opened Lsp
  import opened Syntax

  datatype FoldingRange = FoldingRange(
    startLine: nat,
    startCharacter: Option<nat>,
    endLine: nat,
    endCharacter: Option<nat>)

  /** The kinds that fold. */
  const Foldable: set<Kind> := {Method, Error, Typedef, Struct, Enum}

  /** The fold of a node range: both ends copied, characters included. */
  function FoldOf(r: Range): FoldingRange {
    FoldingRange(r.start.line, Some(r.start.character), r.end.line, Some(r.end.character))
  }

  /** The filter_map over nodes[..upto]. Its folds follow the foldable nodes
      one for one and in document order; other kinds contribute nothing. */
  function FoldsBelow(nodes: seq<Node>, upto: nat): (r: seq<FoldingRange>)
    requires upto <= |nodes|
    ensures |r| == |IndicesOfKindsBelow(nodes, Foldable, upto)|
    ensures forall j :: 0 <= j < |r| ==> r[j] == FoldOf(nodes[IndicesOfKindsBelow(nodes, Foldable, upto)[j]].range)
  {
    if upto == 0 then []
    else
      var prefix := FoldsBelow(nodes, upto - 1);
      var n := nodes[upto - 1];
      if n.kind == Method || n.kind == Error || n.kind == Typedef || n.kind == Struct || n.kind == Enum then
        prefix + [FoldOf(n.range)]
      else prefix
  }

  /** folding_range: always a list, one fold per foldable node. */
  function FoldingRanges(nodes: seq<Node>): (r: Option<seq<FoldingRange>>)
    ensures r.Some?
    ensures |r.value| == |IndicesOfKinds(nodes, Foldable)|
    ensures forall j :: 0 <= j < |r.value| ==>
      var i := IndicesOfKinds(nodes, Foldable)[j];
      r.value[j].startLine == nodes[i].range.start.line &&
      r.value[j].startCharacter == Some(nodes[i].range.start.character) &&
      r.value[j].endLine == nodes[i].range.end.line &&
      r.value[j].endCharacter == Some(nodes[i].range.end.character)
  {
    Some(FoldsBelow(nodes, |nodes|))
  }

  /** A fold exists for node i exactly when i's kind folds: a corollary of
      FoldingRanges' contract (the folds follow IndicesOfKinds one for one)
      and IndicesOfKinds' membership contract. */
  lemma FoldedIff(nodes: seq<Node>, i: nat)
    requires i < |nodes|
    ensures (exists j :: 0 <= j < |FoldingRanges(nodes).value| && IndicesOfKinds(nodes, Foldable)[j] == i) <==>
      nodes[i].kind in Foldable
  {
    var idx := IndicesOfKinds(nodes, Foldable);
    if nodes[i].kind in Foldable {
      assert i in idx;
      var j :| 0 <= j < |idx| && idx[j] == i;
    }
  }
}
