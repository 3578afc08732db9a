/** Document and workspace symbols (src/capabilities/document_symbols.rs and
    src/capabilities/symbols.rs): one symbol per interface declaration,
    error, typedef and method, in document order, as pushed into the
    symbols builder. */
module Symbols {
  import opened Lsp
  import opened Syntax
  import opened Seqs

  datatype SymbolKind = NamespaceSymbol | EventSymbol | MethodSymbol | ClassSymbol

  datatype DocumentSymbol = DocumentSymbol(
    name: string,
    kind: SymbolKind,
    range: Range,
    selectionRange: Range,
    detail: Option<string>,
    tags: Option<seq<nat>>,
    children: Option<seq<DocumentSymbol>>)

  /** The node kinds that have a symbol. */
  const SymbolKinds: set<Kind> := {InterfaceDeclaration, Error, Typedef, Method}

  /** The symbol kind of each declaration kind. */
  function KindOf(k: Kind): (s: SymbolKind)
    requires k in SymbolKinds
    ensures s == NamespaceSymbol <==> k == InterfaceDeclaration
    ensures s == EventSymbol <==> k == Error
    ensures s == MethodSymbol <==> k == Method
    ensures s == ClassSymbol <==> k == Typedef
  {
    match k
    case InterfaceDeclaration => NamespaceSymbol
    case Error => EventSymbol
    case Method => MethodSymbol
    case Typedef => ClassSymbol
  }

  /** build_document_symbols of declaration i, named `name`: the whole node
      is the range, the name child the selection range; no detail, tags or
      children. */
  function SymbolOf(nodes: seq<Node>, i: nat, name: string): DocumentSymbol
    requires Linked(nodes) && i < |nodes| && nodes[i].kind in SymbolKinds
  {
    DocumentSymbol(name, KindOf(nodes[i].kind), nodes[i].range, nodes[NameOf(nodes, i)].range, None, None, None)
  }

  /** Declaration j's name text cannot be read. */
  predicate NameUnreadable(nodes: seq<Node>, j: nat)
    requires Linked(nodes) && j < |nodes|
  {
    nodes[j].kind in SymbolKinds && nodes[NameOf(nodes, j)].text.None?
  }

  /** The pushed list is the declarations of nodes[..upto], one symbol each
      in document order, named by their name text. */
  ghost predicate ListsDeclarations(nodes: seq<Node>, upto: nat, syms: seq<DocumentSymbol>)
    requires Linked(nodes) && upto <= |nodes|
  {
    var idx := IndicesOfKindsBelow(nodes, SymbolKinds, upto);
    |syms| == |idx| &&
    forall k :: 0 <= k < |syms| ==>
      nodes[NameOf(nodes, idx[k])].text.Some? &&
      syms[k] == SymbolOf(nodes, idx[k], nodes[NameOf(nodes, idx[k])].text.value)
  }

  // ---------------------------------------------------------------------
  // document_symbols.rs: a name that cannot be read fails the request
  // ---------------------------------------------------------------------

  /** The try_for_each over nodes[..upto]: the first declaration whose
      name cannot be read stops the walk with an error. */
  function DocumentSymbolsBelow(nodes: seq<Node>, upto: nat): (r: Result<seq<DocumentSymbol>>)
    requires Linked(nodes) && upto <= |nodes|
    ensures r.Err? <==> exists j :: 0 <= j < upto && NameUnreadable(nodes, j)
    ensures r.Err? ==> exists j :: (0 <= j < upto && NameUnreadable(nodes, j) &&
      r.reason == UnreadableText(NameOf(nodes, j)) && forall k :: 0 <= k < j ==> !NameUnreadable(nodes, k))
    ensures r.Ok? ==> ListsDeclarations(nodes, upto, r.value)
  {
    if upto == 0 then Ok([])
    else
      var i := upto - 1;
      match DocumentSymbolsBelow(nodes, i)
      case Err(e) => Err(e)
      case Ok(prefix) =>
        if nodes[i].kind == InterfaceDeclaration || nodes[i].kind == Error ||
           nodes[i].kind == Typedef || nodes[i].kind == Method then
          match nodes[NameOf(nodes, i)].text
          case None =>
            assert NameUnreadable(nodes, i);
            Err(UnreadableText(NameOf(nodes, i)))
          case Some(name) =>
            ListsStep(nodes, upto, prefix, name);
            Ok(prefix + [SymbolOf(nodes, i, name)])
        else
          Ok(prefix)
  }

  /** Appending declaration upto - 1 extends the list of nodes[..upto - 1]. */
  lemma ListsStep(nodes: seq<Node>, upto: nat, prefix: seq<DocumentSymbol>, name: string)
    requires Linked(nodes) && 0 < upto <= |nodes|
    requires ListsDeclarations(nodes, upto - 1, prefix)
    requires nodes[upto - 1].kind in SymbolKinds && nodes[NameOf(nodes, upto - 1)].text == Some(name)
    ensures ListsDeclarations(nodes, upto, prefix + [SymbolOf(nodes, upto - 1, name)])
  {
    var idx := IndicesOfKindsBelow(nodes, SymbolKinds, upto);
    assert idx == IndicesOfKindsBelow(nodes, SymbolKinds, upto - 1) + [upto - 1];
  }

  /** document_symbols: the pushed symbols, or the error of the first
      unreadable name. */
  function DocumentSymbols(nodes: seq<Node>): (r: Result<seq<DocumentSymbol>>)
    requires Linked(nodes)
    ensures r.Err? <==> exists j :: 0 <= j < |nodes| && NameUnreadable(nodes, j)
    ensures r.Ok? ==> ListsDeclarations(nodes, |nodes|, r.value)
  {
    DocumentSymbolsBelow(nodes, |nodes|)
  }

  // ---------------------------------------------------------------------
  // symbols.rs: names are unwrapped
  // ---------------------------------------------------------------------

  /** Every declaration name can be read (symbols.rs unwraps it). */
  predicate SymbolNamesReadable(nodes: seq<Node>)
    requires Linked(nodes)
  {
    forall j :: 0 <= j < |nodes| ==> !NameUnreadable(nodes, j)
  }

  /** _symbols over nodes[..upto]. */
  function SymbolsBelow(nodes: seq<Node>, upto: nat): (r: seq<DocumentSymbol>)
    requires Linked(nodes) && upto <= |nodes| && SymbolNamesReadable(nodes)
    ensures ListsDeclarations(nodes, upto, r)
  {
    if upto == 0 then []
    else
      var i := upto - 1;
      var prefix := SymbolsBelow(nodes, i);
      if nodes[i].kind == InterfaceDeclaration || nodes[i].kind == Error ||
         nodes[i].kind == Typedef || nodes[i].kind == Method then
        assert !NameUnreadable(nodes, i);
        var name := nodes[NameOf(nodes, i)].text.value;
        ListsStep(nodes, upto, prefix, name);
        prefix + [SymbolOf(nodes, i, name)]
      else
        prefix
  }

  /** _symbols: the pushed symbols of one file. */
  function Symbols(nodes: seq<Node>): (r: seq<DocumentSymbol>)
    requires Linked(nodes) && SymbolNamesReadable(nodes)
    ensures ListsDeclarations(nodes, |nodes|, r)
  {
    SymbolsBelow(nodes, |nodes|)
  }

  /** Declarations are listed with no detail, tags or children, and the
      selection range is the name's range. */
  lemma SymbolShape(nodes: seq<Node>, k: nat)
    requires Linked(nodes) && SymbolNamesReadable(nodes) && k < |Symbols(nodes)|
    ensures var s := Symbols(nodes)[k]; var i := IndicesOfKinds(nodes, SymbolKinds)[k];
      s.detail.None? && s.tags.None? && s.children.None? &&
      s.range == nodes[i].range && s.selectionRange == nodes[NameOf(nodes, i)].range &&
      Some(s.name) == nodes[NameOf(nodes, i)].text
  {
  }

  /** Only one list is ever described: the pushed symbols are determined by
      the nodes. */
  lemma {:induction false} ListsDeclarationsUnique(nodes: seq<Node>, upto: nat, a: seq<DocumentSymbol>, b: seq<DocumentSymbol>)
    requires Linked(nodes) && upto <= |nodes|
    requires ListsDeclarations(nodes, upto, a) && ListsDeclarations(nodes, upto, b)
    ensures a == b
  {
    assert |a| == |b|;
    forall k | 0 <= k < |a|
      ensures a[k] == b[k]
    {
    }
  }

  /** The two handlers agree whenever every name can be read; otherwise
      document_symbols.rs fails where symbols.rs would panic. */
  lemma DocumentSymbolsAgree(nodes: seq<Node>)
    requires Linked(nodes)
    ensures SymbolNamesReadable(nodes) ==> DocumentSymbols(nodes) == Ok(Symbols(nodes))
    ensures !SymbolNamesReadable(nodes) ==> DocumentSymbols(nodes).Err?
  {
    if SymbolNamesReadable(nodes) {
      ListsDeclarationsUnique(nodes, |nodes|, DocumentSymbols(nodes).value, Symbols(nodes));
    }
  }

  // ---------------------------------------------------------------------
  // workspace_symbols
  // ---------------------------------------------------------------------

  datatype WorkspaceSymbol = WorkspaceSymbol(
    name: string,
    kind: SymbolKind,
    location: Location,
    containerName: Option<string>,
    tags: Option<seq<nat>>)

  /** A file of the workspace: its URL and its node arena. */
  datatype SourceFile = SourceFile(uri: Uri, nodes: seq<Node>)

  predicate FileReady(f: SourceFile) {
    Linked(f.nodes) && SymbolNamesReadable(f.nodes)
  }

  /** A document symbol placed in the file `uri`: name and kind kept, the
      whole range as the location. */
  function ToWorkspace(s: DocumentSymbol, uri: Uri): (w: WorkspaceSymbol)
    ensures w.name == s.name && w.kind == s.kind
    ensures w.location == Location(uri, s.range)
    ensures w.containerName.None? && w.tags.None?
  {
    WorkspaceSymbol(s.name, s.kind, Location(uri, s.range), None, None)
  }

  function FileSymbols(f: SourceFile): (r: seq<WorkspaceSymbol>)
    requires FileReady(f)
    ensures |r| == |Symbols(f.nodes)|
    ensures forall k :: 0 <= k < |r| ==> r[k] == ToWorkspace(Symbols(f.nodes)[k], f.uri)
  {
    var syms := Symbols(f.nodes);
    seq(|syms|, k requires 0 <= k < |syms| => ToWorkspace(syms[k], f.uri))
  }

  /** The symbol list of every file, in file order. */
  function PerFile(files: seq<SourceFile>): (r: seq<seq<WorkspaceSymbol>>)
    requires forall i :: 0 <= i < |files| ==> FileReady(files[i])
    ensures |r| == |files|
    ensures forall i :: 0 <= i < |files| ==> r[i] == FileSymbols(files[i])
  {
    seq(|files|, i requires 0 <= i < |files| => FileSymbols(files[i]))
  }

  /** workspace_symbols: every file's symbols in turn. A symbol is in the
      result exactly when it is one of some file's symbols, and none has a
      container or tags. */
  function WorkspaceSymbols(files: seq<SourceFile>): (r: Option<seq<WorkspaceSymbol>>)
    requires forall i :: 0 <= i < |files| ==> FileReady(files[i])
    ensures r.Some?
    ensures forall w :: w in r.value <==> exists i :: 0 <= i < |files| && w in FileSymbols(files[i])
    ensures forall w :: w in r.value ==> w.containerName.None? && w.tags.None?
  {
    var ss := PerFile(files);
    forall w
      ensures w in Flatten(ss) <==> exists i :: 0 <= i < |files| && w in FileSymbols(files[i])
    {
      FlattenHas(ss, w);
    }
    Some(Flatten(ss))
  }

  /** File i's symbols sit in the workspace list, whole and in their own
      order, right after the symbols of the files before it. */
  lemma WorkspaceSymbolsInFileOrder(files: seq<SourceFile>, i: nat)
    requires forall i :: 0 <= i < |files| ==> FileReady(files[i])
    requires i < |files|
    ensures var start := |Flatten(PerFile(files)[..i])|; var f := FileSymbols(files[i]);
      start + |f| <= |WorkspaceSymbols(files).value| &&
      WorkspaceSymbols(files).value[start..start + |f|] == f
  {
    WorkspaceIsFlatten(files, i);
    FlattenAtOf(PerFile(files), WorkspaceSymbols(files).value, i, FileSymbols(files[i]));
  }

  /** The workspace list is the flattened per-file lists, file i's list
      being FileSymbols of file i. */
  lemma WorkspaceIsFlatten(files: seq<SourceFile>, i: nat)
    requires forall i :: 0 <= i < |files| ==> FileReady(files[i])
    requires i < |files|
    ensures WorkspaceSymbols(files).value == Flatten(PerFile(files))
    ensures PerFile(files)[i] == FileSymbols(files[i])
  {
  }
}
