/** Position queries over the start-sorted node arena (src/capabilities/util.rs). */
module Util {
  import opened Lsp
  import opened Syntax

  /** The partition predicate of prec_at: node n starts at or before pos. */
  predicate StartsBy(n: Node, pos: Position) {
    PosLe(n.range.start, pos)
  }

  /** Node n's (exclusive) end lies strictly after pos. */
  predicate EndsAfter(n: Node, pos: Position) {
    PosLt(pos, n.range.end)
  }

  /** Binary search for the partition point of StartsBy on nodes[lo..hi],
      where everything below lo is known to start by pos and everything from
      hi on is known not to. */
  function PartitionPoint(nodes: seq<Node>, pos: Position, lo: nat, hi: nat): (r: nat)
    requires Sorted(nodes) && lo <= hi <= |nodes|
    requires forall k :: 0 <= k < lo ==> StartsBy(nodes[k], pos)
    requires forall k :: hi <= k < |nodes| ==> !StartsBy(nodes[k], pos)
    ensures lo <= r <= hi
    ensures forall k :: 0 <= k < r ==> StartsBy(nodes[k], pos)
    ensures forall k :: r <= k < |nodes| ==> !StartsBy(nodes[k], pos)
    decreases hi - lo
  {
    if lo == hi then lo
    else
      var mid := (lo + hi) / 2;
      if StartsBy(nodes[mid], pos) then PartitionPoint(nodes, pos, mid + 1, hi)
      else PartitionPoint(nodes, pos, lo, mid)
  }

  /** prec_at: the index of the last node that starts at or before pos. */
  function PrecAt(nodes: seq<Node>, pos: Position): (r: Option<nat>)
    requires Sorted(nodes)
    ensures r.None? <==> forall k :: 0 <= k < |nodes| ==> !StartsBy(nodes[k], pos)
    ensures r.Some? ==> r.value < |nodes| && StartsBy(nodes[r.value], pos)
    ensures r.Some? ==> forall k :: r.value < k < |nodes| ==> !StartsBy(nodes[k], pos)
  {
    var cutoff := PartitionPoint(nodes, pos, 0, |nodes|);
    if cutoff == 0 then None
    else
      assert StartsBy(nodes[cutoff - 1], pos);
      Some(cutoff - 1)
  }

  /** leaf_at: prec_at's candidate, provided it still covers pos. */
  function LeafAt(nodes: seq<Node>, pos: Position): (r: Option<nat>)
    requires Sorted(nodes)
    ensures r.Some? ==> r.value < |nodes| && Covers(nodes[r.value].range, pos)
    ensures r.Some? ==> forall k :: r.value < k < |nodes| ==> !StartsBy(nodes[k], pos)
    ensures r.None? <==>
      (forall k :: 0 <= k < |nodes| ==> !StartsBy(nodes[k], pos)) ||
      (exists c :: 0 <= c < |nodes| && StartsBy(nodes[c], pos) && !EndsAfter(nodes[c], pos) &&
         forall k :: c < k < |nodes| ==> !StartsBy(nodes[k], pos))
  {
    match PrecAt(nodes, pos)
    case None => None
    case Some(c) => if EndsAfter(nodes[c], pos) then Some(c) else None
  }

  /** The inner walk_up of most_specific_at: the first node on the parent
      chain from i whose end lies after pos. */
  function WalkUpToCover(nodes: seq<Node>, i: nat, pos: Position): (r: Option<nat>)
    requires ParentsPrecede(nodes) && i < |nodes|
    ensures r.Some? ==> r.value in Chain(nodes, i) && EndsAfter(nodes[r.value], pos)
    ensures r.Some? ==> forall b :: b in Chain(nodes, i) && b > r.value ==> !EndsAfter(nodes[b], pos)
    ensures r.None? <==> forall b :: b in Chain(nodes, i) ==> !EndsAfter(nodes[b], pos)
    decreases i
  {
    if EndsAfter(nodes[i], pos) then Some(i)
    else
      match nodes[i].parent
      case None => None
      case Some(p) => WalkUpToCover(nodes, p, pos)
  }

  /** most_specific_at: walk up from prec_at's candidate to the first node
      still open at pos. */
  function MostSpecificAt(nodes: seq<Node>, pos: Position): (r: Option<nat>)
    requires Sorted(nodes) && ParentsPrecede(nodes)
    ensures r.Some? ==> r.value < |nodes| && Covers(nodes[r.value].range, pos)
    ensures r.Some? <==> (PrecAt(nodes, pos).Some? &&
      exists b :: b in Chain(nodes, PrecAt(nodes, pos).value) && EndsAfter(nodes[b], pos))
    ensures r.Some? ==> r.value in Chain(nodes, PrecAt(nodes, pos).value)
    ensures r.Some? ==> forall b :: b in Chain(nodes, PrecAt(nodes, pos).value) && b > r.value ==>
      !EndsAfter(nodes[b], pos)
  {
    match PrecAt(nodes, pos)
    case None => None
    case Some(c) =>
      var r := WalkUpToCover(nodes, c, pos);
      assert r.Some? ==> r.value <= c;
      r
  }

  /** The inner walk_up of capture_at: the first node on the parent chain
      from i whose kind is k. Position is not consulted. */
  function WalkUpToKind(nodes: seq<Node>, i: nat, k: Kind): (r: Option<nat>)
    requires ParentsPrecede(nodes) && i < |nodes|
    ensures r.Some? ==> r.value in Chain(nodes, i) && nodes[r.value].kind == k
    ensures r.Some? ==> forall b :: b in Chain(nodes, i) && b > r.value ==> nodes[b].kind != k
    ensures r.None? <==> forall b :: b in Chain(nodes, i) ==> nodes[b].kind != k
    decreases i
  {
    if nodes[i].kind == k then Some(i)
    else
      match nodes[i].parent
      case None => None
      case Some(p) => WalkUpToKind(nodes, p, k)
  }

  /** capture_at::<k>: the nearest ancestor-or-self of kind k of the most
      specific node at pos. */
  function CaptureAt(nodes: seq<Node>, pos: Position, k: Kind): (r: Option<nat>)
    requires Sorted(nodes) && ParentsPrecede(nodes)
    ensures r.Some? ==> MostSpecificAt(nodes, pos).Some? && r.value in Chain(nodes, MostSpecificAt(nodes, pos).value)
    ensures r.Some? ==> r.value < |nodes| && nodes[r.value].kind == k
    ensures r.None? <==> (MostSpecificAt(nodes, pos).None? ||
      forall b :: b in Chain(nodes, MostSpecificAt(nodes, pos).value) ==> nodes[b].kind != k)
    ensures r.Some? ==> forall b :: b in Chain(nodes, MostSpecificAt(nodes, pos).value) && b > r.value ==>
      nodes[b].kind != k
  {
    match MostSpecificAt(nodes, pos)
    case None => None
    case Some(n) => WalkUpToKind(nodes, n, k)
  }

  /** Whenever leaf_at finds a node, most_specific_at finds the same one. */
  lemma LeafIsMostSpecific(nodes: seq<Node>, pos: Position)
    requires Sorted(nodes) && ParentsPrecede(nodes)
    requires LeafAt(nodes, pos).Some?
    ensures MostSpecificAt(nodes, pos) == LeafAt(nodes, pos)
  {
  }

  /** The nodes on a parent chain start no later than the chain's origin, so
      in a sorted arena every ancestor of a node starting by pos does too. */
  lemma {:induction false} ChainStartsBy(nodes: seq<Node>, i: nat, pos: Position)
    requires Sorted(nodes) && ParentsPrecede(nodes) && i < |nodes|
    requires StartsBy(nodes[i], pos)
    ensures forall b :: b in Chain(nodes, i) ==> StartsBy(nodes[b], pos)
  {
    forall b | b in Chain(nodes, i)
      ensures StartsBy(nodes[b], pos)
    {
      assert b <= i;
      assert PosLe(nodes[b].range.start, nodes[i].range.start);
    }
  }

  /** leaf_at judges prec_at's one candidate only: a position past the end of
      a node's last child has no leaf even though the node still encloses
      it, while most_specific_at climbs to the enclosing node. */
  lemma LeafAtMissesEnclosing()
    ensures var root := Node(Interface, Range(Position(0, 0), Position(5, 0)), None, None, None, None, []);
      var child := Node(Name, Range(Position(0, 0), Position(0, 3)), Some(0), None, None, None, []);
      var nodes := [root, child];
      var pos := Position(1, 0);
      Sorted(nodes) && ParentsPrecede(nodes) && Covers(root.range, pos) &&
      LeafAt(nodes, pos).None? && MostSpecificAt(nodes, pos) == Some(0)
  {
    var root := Node(Interface, Range(Position(0, 0), Position(5, 0)), None, None, None, None, []);
    var child := Node(Name, Range(Position(0, 0), Position(0, 3)), Some(0), None, None, None, []);
    var nodes := [root, child];
    var pos := Position(1, 0);
    assert Sorted(nodes) && ParentsPrecede(nodes);
    assert LeafAt(nodes, pos).None? by {
      assert PrecAt(nodes, pos) == Some(1);
    }
    assert MostSpecificAt(nodes, pos) == Some(0) by {
      assert PrecAt(nodes, pos) == Some(1);
      assert WalkUpToCover(nodes, 1, pos) == Some(0);
    }
  }
}
