/** Prepare-rename and rename (src/capabilities/rename.rs). Renaming a type
    name rewrites every typedef name and type reference spelled the same;
    any other identifier is rewritten where it stands. */
module Rename {
  import opened Lsp
  import opened Syntax
  import opened Util
  import opened GotoDefinition
  import opened References

  /** prepare_rename: the leaf's range when the leaf at pos is an identifier. */
  function PrepareRename(nodes: seq<Node>, pos: Position): (r: Option<Range>)
    requires Sorted(nodes)
    ensures r.Some? <==> LeafAt(nodes, pos).Some? && IsIdentifier(nodes[LeafAt(nodes, pos).value].kind)
    ensures r.Some? ==> r.value == nodes[LeafAt(nodes, pos).value].range && Covers(r.value, pos)
  {
    match LeafAt(nodes, pos)
    case None => None
    case Some(l) => if IsIdentifier(nodes[l].kind) then Some(nodes[l].range) else None
  }

  /** Node i takes part in renaming the type `oldName`: a typedef declaring it or
      a type reference spelling it. */
  predicate RenameTarget(nodes: seq<Node>, i: nat, oldName: string)
    requires Linked(nodes) && i < |nodes|
  {
    DeclaresType(nodes, i, oldName) || RefersToType(nodes, i, oldName)
  }

  /** The range an edit of target i covers: a typedef's name, or the whole
      type reference. */
  function TargetRange(nodes: seq<Node>, i: nat): Range
    requires Linked(nodes) && i < |nodes|
  {
    if nodes[i].kind == Typedef then nodes[NameOf(nodes, i)].range else nodes[i].range
  }

  /** The rename targets among nodes[..upto], in document order. */
  function TargetsBelow(nodes: seq<Node>, oldName: string, upto: nat): (r: seq<nat>)
    requires Linked(nodes) && upto <= |nodes|
    ensures forall a :: 0 <= a < |r| ==> r[a] < upto && RenameTarget(nodes, r[a], oldName)
    ensures forall a, b :: 0 <= a < b < |r| ==> r[a] < r[b]
    ensures forall i: nat :: i in r <==> i < upto && RenameTarget(nodes, i, oldName)
  {
    if upto == 0 then []
    else
      var prefix := TargetsBelow(nodes, oldName, upto - 1);
      if RenameTarget(nodes, upto - 1, oldName) then prefix + [upto - 1] else prefix
  }

  /** What the type branch unwraps: every typedef's name text and every
      type reference's text. */
  predicate TypeTextsReadable(nodes: seq<Node>)
    requires Linked(nodes)
  {
    NamesReadable(nodes, Typedef) && TextsReadable(nodes, Typeref)
  }

  /** The rename targets in the whole document. */
  function Targets(nodes: seq<Node>, oldName: string): seq<nat>
    requires Linked(nodes)
  {
    TargetsBelow(nodes, oldName, |nodes|)
  }

  /** Typedefs and type references are different nodes, so the targets are
      the typedefs declaring oldName plus the references spelling it. */
  lemma {:induction false} TargetCount(nodes: seq<Node>, oldName: string, upto: nat)
    requires Linked(nodes) && upto <= |nodes|
    ensures |TargetsBelow(nodes, oldName, upto)| ==
      |TypedefsNamedBelow(nodes, oldName, upto)| + |TyperefsNamedBelow(nodes, oldName, upto)|
  {
    if upto > 0 {
      TargetCount(nodes, oldName, upto - 1);
    }
  }

  /** The for_each of the type branch over nodes[..upto]: one edit per
      target, in document order. */
  function TypeEditsBelow(nodes: seq<Node>, oldName: string, newName: string, upto: nat): (r: seq<TextEdit>)
    requires Linked(nodes) && TypeTextsReadable(nodes) && upto <= |nodes|
    ensures |r| == |TargetsBelow(nodes, oldName, upto)|
    ensures forall j :: 0 <= j < |r| ==>
      r[j] == TextEdit(TargetRange(nodes, TargetsBelow(nodes, oldName, upto)[j]), newName)
  {
    if upto == 0 then []
    else
      var prefix := TypeEditsBelow(nodes, oldName, newName, upto - 1);
      var i := upto - 1;
      var n := nodes[i];
      var fromTypedef :=
        if n.kind == Typedef then
          assert NameReadable(nodes, Typedef, i);
          if nodes[NameOf(nodes, i)].text.value == oldName then [TextEdit(nodes[NameOf(nodes, i)].range, newName)] else []
        else [];
      var fromTyperef :=
        if n.kind == Typeref && n.text.value == oldName then [TextEdit(n.range, newName)] else [];
      prefix + fromTypedef + fromTyperef
  }

  function TypeEdits(nodes: seq<Node>, oldName: string, newName: string): (r: seq<TextEdit>)
    requires Linked(nodes) && TypeTextsReadable(nodes)
    ensures |r| == |TypedefsNamed(nodes, oldName)| + |TyperefsNamed(nodes, oldName)|
    ensures |r| == |Targets(nodes, oldName)|
    ensures forall j :: 0 <= j < |r| ==>
      r[j] == TextEdit(TargetRange(nodes, Targets(nodes, oldName)[j]), newName)
  {
    TargetCount(nodes, oldName, |nodes|);
    TypeEditsBelow(nodes, oldName, newName, |nodes|)
  }

  /** What renaming identifier l unwraps: its parent once its text is read,
      and the type branch's texts once that parent is a typedef or a type
      reference. */
  predicate IdentifierReadable(nodes: seq<Node>, l: nat)
    requires ParentsPrecede(nodes) && l < |nodes|
  {
    nodes[l].text.Some? ==>
      nodes[l].parent.Some? &&
      (nodes[nodes[l].parent.value].kind in {Typedef, Typeref} ==> Linked(nodes) && TypeTextsReadable(nodes))
  }

  /** The edit rename computes for identifier l: an error when its text
      cannot be read; otherwise one document entry, keyed by the request
      uri, whose edits all insert newName. */
  function RenameIdentifier(nodes: seq<Node>, l: nat, newName: string, uri: Uri): (r: Result<WorkspaceEdit>)
    requires ParentsPrecede(nodes) && Linked(nodes) && l < |nodes|
    requires IdentifierReadable(nodes, l)
    ensures r.Err? <==> nodes[l].text.None?
    ensures r.Err? ==> r.reason == UnreadableText(l)
    ensures r.Ok? ==>
      r.value.changes.Keys == {uri} &&
      forall e :: e in r.value.changes[uri] ==> e.newText == newName
    ensures r.Ok? ==>
      var edits := r.value.changes[uri];
      if nodes[nodes[l].parent.value].kind in {Typedef, Typeref} then
        edits == TypeEdits(nodes, nodes[l].text.value, newName)
      else
        edits == [TextEdit(nodes[l].range, newName)]
  {
    if nodes[l].text.None? then Err(UnreadableText(l))
    else
      var oldName := nodes[l].text.value;
      var decl := nodes[l].parent.value;
      var edits :=
        if nodes[decl].kind in {Typedef, Typeref} then TypeEdits(nodes, oldName, newName)
        else [TextEdit(nodes[l].range, newName)];
      assert forall e :: e in edits ==> e.newText == newName;
      Ok(WorkspaceEdit(map[uri := edits]))
  }

  /** What rename unwraps at pos. */
  predicate RenameReadable(nodes: seq<Node>, pos: Position)
    requires Sorted(nodes) && ParentsPrecede(nodes)
  {
    match LeafAt(nodes, pos)
    case None => true
    case Some(l) => IsIdentifier(nodes[l].kind) ==> IdentifierReadable(nodes, l)
  }

  /** rename: Ok(None) unless the leaf at pos is an identifier, which is
      then renamed as RenameIdentifier says. */
  function Rename(nodes: seq<Node>, pos: Position, newName: string, uri: Uri): (r: Result<Option<WorkspaceEdit>>)
    requires Sorted(nodes) && ParentsPrecede(nodes) && Linked(nodes)
    requires RenameReadable(nodes, pos)
    ensures r.Ok? && r.value.None? <==>
      LeafAt(nodes, pos).None? || !IsIdentifier(nodes[LeafAt(nodes, pos).value].kind)
    ensures r.Err? <==>
      LeafAt(nodes, pos).Some? && IsIdentifier(nodes[LeafAt(nodes, pos).value].kind) &&
      nodes[LeafAt(nodes, pos).value].text.None?
    ensures r.Err? ==> r.reason == UnreadableText(LeafAt(nodes, pos).value)
    ensures r.Ok? && r.value.Some? ==>
      Ok(r.value.value) == RenameIdentifier(nodes, LeafAt(nodes, pos).value, newName, uri)
  {
    match LeafAt(nodes, pos)
    case None => Ok(None)
    case Some(l) =>
      if !IsIdentifier(nodes[l].kind) then Ok(None)
      else
        match RenameIdentifier(nodes, l, newName, uri)
        case Err(e) => Err(e)
        case Ok(edit) => Ok(Some(edit))
  }

  /** Each edit of the type branch sits on a definition's name or on a
      reference. */
  lemma EditIsDefinitionOrReference(nodes: seq<Node>, uri: Uri, oldName: string, newName: string, j: nat)
    requires Linked(nodes) && TypeTextsReadable(nodes)
    requires j < |TypeEdits(nodes, oldName, newName)|
    ensures var rg := TypeEdits(nodes, oldName, newName)[j].range;
      (exists loc :: loc in Definitions(nodes, uri, oldName) && loc.range == rg) ||
      (exists loc :: loc in ReferencesTo(nodes, uri, oldName) && loc.range == rg)
  {
    var i := Targets(nodes, oldName)[j];
    if DeclaresType(nodes, i, oldName) {
      DefinitionFound(nodes, uri, oldName, i);
    } else {
      ReferenceFound(nodes, uri, oldName, i);
    }
  }

  /** Each definition's name is edited. */
  lemma DefinitionEdited(nodes: seq<Node>, uri: Uri, oldName: string, newName: string, loc: Location)
    requires Linked(nodes) && TypeTextsReadable(nodes)
    requires loc in Definitions(nodes, uri, oldName)
    ensures exists e :: e in TypeEdits(nodes, oldName, newName) && e.range == loc.range
  {
    var defs := Definitions(nodes, uri, oldName);
    var j :| 0 <= j < |defs| && defs[j] == loc;
    var t := TypedefsNamed(nodes, oldName)[j];
    var targets := Targets(nodes, oldName);
    assert t in targets;
    var k :| 0 <= k < |targets| && targets[k] == t;
    assert TypeEdits(nodes, oldName, newName)[k].range == loc.range;
  }

  /** Each reference is edited. */
  lemma ReferenceEdited(nodes: seq<Node>, uri: Uri, oldName: string, newName: string, loc: Location)
    requires Linked(nodes) && TypeTextsReadable(nodes)
    requires loc in ReferencesTo(nodes, uri, oldName)
    ensures exists e :: e in TypeEdits(nodes, oldName, newName) && e.range == loc.range
  {
    var refs := ReferencesTo(nodes, uri, oldName);
    var j :| 0 <= j < |refs| && refs[j] == loc;
    var t := TyperefsNamed(nodes, oldName)[j];
    var targets := Targets(nodes, oldName);
    assert t in targets;
    var k :| 0 <= k < |targets| && targets[k] == t;
    assert TypeEdits(nodes, oldName, newName)[k].range == loc.range;
  }

  /** The ranges a list of edits touches. */
  function EditRanges(edits: seq<TextEdit>): set<Range> {
    set e | e in edits :: e.range
  }

  /** Renaming a type touches exactly the places goto-definition and
      find-references report for it: the definitions' names and the
      references. */
  lemma TypeRenameIsDefinitionsPlusReferences(nodes: seq<Node>, uri: Uri, oldName: string, newName: string)
    requires Linked(nodes) && TypeTextsReadable(nodes)
    ensures EditRanges(TypeEdits(nodes, oldName, newName)) ==
      (set loc | loc in Definitions(nodes, uri, oldName) :: loc.range) +
      (set loc | loc in ReferencesTo(nodes, uri, oldName) :: loc.range)
  {
    var edits := TypeEdits(nodes, oldName, newName);
    var defs := Definitions(nodes, uri, oldName);
    var refs := ReferencesTo(nodes, uri, oldName);
    var rhs := (set loc | loc in defs :: loc.range) + (set loc | loc in refs :: loc.range);
    forall rg | rg in EditRanges(edits)
      ensures rg in rhs
    {
      var j :| 0 <= j < |edits| && edits[j].range == rg;
      EditIsDefinitionOrReference(nodes, uri, oldName, newName, j);
    }
    forall loc | loc in defs
      ensures loc.range in EditRanges(edits)
    {
      DefinitionEdited(nodes, uri, oldName, newName, loc);
    }
    forall loc | loc in refs
      ensures loc.range in EditRanges(edits)
    {
      ReferenceEdited(nodes, uri, oldName, newName, loc);
    }
  }
}
