/** Go to definition (src/capabilities/goto_definition.rs): from the type
    reference under the cursor to the name of every typedef spelled the same. */
module GotoDefinition {
  import opened Lsp
  import opened Syntax

  /** `start <= pos <= end`: unlike Covers, the end is included. */
  predicate Touches(r: Range, pos: Position) {
    PosLe(r.start, pos) && PosLe(pos, r.end)
  }

  /** The typeref candidates: Typeref nodes of the subtree slice nodes[lo..upto]
      whose range touches pos, in slice order. */
  function Candidates(nodes: seq<Node>, lo: nat, upto: nat, pos: Position): (r: seq<nat>)
    requires lo <= upto <= |nodes|
    ensures forall a :: 0 <= a < |r| ==> lo <= r[a] < upto && nodes[r[a]].kind == Typeref
    ensures forall a, b :: 0 <= a < b < |r| ==> r[a] < r[b]
    ensures forall i :: i in r <==> lo <= i < upto && nodes[i].kind == Typeref && Touches(nodes[i].range, pos)
    decreases upto
  {
    if upto == lo then []
    else
      var prefix := Candidates(nodes, lo, upto - 1, pos);
      var n := nodes[upto - 1];
      if n.kind == Typeref && Touches(n.range, pos) then prefix + [upto - 1] else prefix
  }

  /** Where typedef t's name sits, in document uri. */
  function NameLocation(nodes: seq<Node>, uri: Uri, t: nat): Location
    requires Linked(nodes) && t < |nodes| && nodes[t].kind == Typedef
  {
    Location(uri, nodes[NameOf(nodes, t)].range)
  }

  /** locs lists, in document order, the name of every typedef declaring `name`. */
  predicate LocatesDefinitions(nodes: seq<Node>, uri: Uri, name: string, locs: seq<Location>)
    requires Linked(nodes)
  {
    var defs := TypedefsNamed(nodes, name);
    |locs| == |defs| && forall j :: 0 <= j < |locs| ==> locs[j] == NameLocation(nodes, uri, defs[j])
  }

  /** The definition scan over nodes[..upto]: each typedef's name text is
      unwrapped and compared with `name`. */
  function DefinitionsBelow(nodes: seq<Node>, uri: Uri, name: string, upto: nat): (r: seq<Location>)
    requires Linked(nodes) && NamesReadable(nodes, Typedef) && upto <= |nodes|
    ensures |r| == |TypedefsNamedBelow(nodes, name, upto)|
    ensures forall j :: 0 <= j < |r| ==> r[j] == NameLocation(nodes, uri, TypedefsNamedBelow(nodes, name, upto)[j])
  {
    if upto == 0 then []
    else
      var prefix := DefinitionsBelow(nodes, uri, name, upto - 1);
      var i := upto - 1;
      if nodes[i].kind == Typedef then
        assert NameReadable(nodes, Typedef, i);
        if nodes[NameOf(nodes, i)].text.value == name then prefix + [NameLocation(nodes, uri, i)] else prefix
      else prefix
  }

  function Definitions(nodes: seq<Node>, uri: Uri, name: string): (r: seq<Location>)
    requires Linked(nodes) && NamesReadable(nodes, Typedef)
    ensures LocatesDefinitions(nodes, uri, name, r)
  {
    DefinitionsBelow(nodes, uri, name, |nodes|)
  }

  /** What goto_definition unwraps: the one candidate's text and, once there
      is a candidate, every typedef's name text. */
  predicate GotoReadable(nodes: seq<Node>, lo: nat, hi: nat, pos: Position)
    requires Linked(nodes) && lo <= hi <= |nodes|
  {
    var refs := Candidates(nodes, lo, hi, pos);
    |refs| > 0 ==> nodes[refs[0]].text.Some? && NamesReadable(nodes, Typedef)
  }

  /** goto_definition over the subtree slice [lo, hi) that subtree_at yields.
      None when no type reference touches pos; otherwise every definition
      of the referenced name, possibly none or several. */
  function GotoDefinition(nodes: seq<Node>, lo: nat, hi: nat, pos: Position, uri: Uri): (r: Option<seq<Location>>)
    requires Linked(nodes) && lo <= hi <= |nodes|
    requires |Candidates(nodes, lo, hi, pos)| < 2
    requires GotoReadable(nodes, lo, hi, pos)
    ensures r.None? <==> Candidates(nodes, lo, hi, pos) == []
    ensures r.Some? ==>
      var c := Candidates(nodes, lo, hi, pos)[0];
      nodes[c].kind == Typeref && Touches(nodes[c].range, pos) &&
      LocatesDefinitions(nodes, uri, nodes[c].text.value, r.value)
    ensures r.Some? ==> forall loc :: loc in r.value ==> loc.uri == uri
  {
    var refs := Candidates(nodes, lo, hi, pos);
    if |refs| == 0 then None
    else
      assert refs[0] in refs;
      Some(Definitions(nodes, uri, nodes[refs[0]].text.value))
  }

  /** A typedef is found from any reference to its name. */
  lemma DefinitionFound(nodes: seq<Node>, uri: Uri, name: string, t: nat)
    requires Linked(nodes) && NamesReadable(nodes, Typedef)
    requires t < |nodes| && DeclaresType(nodes, t, name)
    ensures NameLocation(nodes, uri, t) in Definitions(nodes, uri, name)
  {
    var defs := TypedefsNamed(nodes, name);
    assert t in defs;
    var j :| 0 <= j < |defs| && defs[j] == t;
    assert Definitions(nodes, uri, name)[j] == NameLocation(nodes, uri, t);
  }
}
