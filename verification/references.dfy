/** Find references (src/capabilities/references.rs): from the typedef
    enclosing the cursor to every type reference spelled like its name. */
module References {
  import opened Lsp
  import opened Syntax
  import opened Util

  /** Where type reference i sits, in document uri. */
  function RefLocation(nodes: seq<Node>, uri: Uri, i: nat): Location
    requires i < |nodes|
  {
    Location(uri, nodes[i].range)
  }

  /** locs lists, in document order, every type reference spelled `name`. */
  predicate LocatesReferences(nodes: seq<Node>, uri: Uri, name: string, locs: seq<Location>) {
    var refs := TyperefsNamed(nodes, name);
    |locs| == |refs| && forall j :: 0 <= j < |locs| ==> locs[j] == RefLocation(nodes, uri, refs[j])
  }

  /** The filter_map over nodes[..upto]: each typeref's text is unwrapped and
      compared with `name`. */
  function ReferencesBelow(nodes: seq<Node>, uri: Uri, name: string, upto: nat): (r: seq<Location>)
    requires TextsReadable(nodes, Typeref) && upto <= |nodes|
    ensures |r| == |TyperefsNamedBelow(nodes, name, upto)|
    ensures forall j :: 0 <= j < |r| ==> r[j] == RefLocation(nodes, uri, TyperefsNamedBelow(nodes, name, upto)[j])
  {
    if upto == 0 then []
    else
      var prefix := ReferencesBelow(nodes, uri, name, upto - 1);
      var n := nodes[upto - 1];
      if n.kind == Typeref && n.text.value == name then prefix + [RefLocation(nodes, uri, upto - 1)] else prefix
  }

  function ReferencesTo(nodes: seq<Node>, uri: Uri, name: string): (r: seq<Location>)
    requires TextsReadable(nodes, Typeref)
    ensures LocatesReferences(nodes, uri, name, r)
  {
    ReferencesBelow(nodes, uri, name, |nodes|)
  }

  /** What references unwraps once a typedef is captured: its name text and
      every typeref's text. */
  predicate ReferencesReadable(nodes: seq<Node>, pos: Position)
    requires Sorted(nodes) && ParentsPrecede(nodes) && Linked(nodes)
  {
    var cap := CaptureAt(nodes, pos, Typedef);
    cap.Some? ==> nodes[NameOf(nodes, cap.value)].text.Some? && TextsReadable(nodes, Typeref)
  }

  /** references: None exactly when no typedef encloses the most specific
      node at pos (the cursor may sit anywhere inside the typedef), otherwise
      every reference to the captured typedef's name. */
  function References(nodes: seq<Node>, pos: Position, uri: Uri): (r: Option<seq<Location>>)
    requires Sorted(nodes) && ParentsPrecede(nodes) && Linked(nodes)
    requires ReferencesReadable(nodes, pos)
    ensures r.None? <==> CaptureAt(nodes, pos, Typedef).None?
    ensures r.Some? ==>
      var t := CaptureAt(nodes, pos, Typedef).value;
      LocatesReferences(nodes, uri, nodes[NameOf(nodes, t)].text.value, r.value) &&
      forall j :: 0 <= j < |r.value| ==> TyperefsNamed(nodes, nodes[NameOf(nodes, t)].text.value)[j] != t
  {
    match CaptureAt(nodes, pos, Typedef)
    case None => None
    case Some(t) => Some(ReferencesTo(nodes, uri, nodes[NameOf(nodes, t)].text.value))
  }

  /** A type reference is found from the typedef whose name it spells. */
  lemma ReferenceFound(nodes: seq<Node>, uri: Uri, name: string, i: nat)
    requires TextsReadable(nodes, Typeref)
    requires i < |nodes| && RefersToType(nodes, i, name)
    ensures RefLocation(nodes, uri, i) in ReferencesTo(nodes, uri, name)
  {
    var refs := TyperefsNamed(nodes, name);
    assert i in refs;
    var j :| 0 <= j < |refs| && refs[j] == i;
    assert ReferencesTo(nodes, uri, name)[j] == RefLocation(nodes, uri, i);
  }
}
