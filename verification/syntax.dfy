/** The parsed Varlink document as the handlers see it: the flattened node
    arena of auto_lsp's ParsedAst, in document (pre-order, start-sorted)
    order. A node's id is its index in the arena; the root is index 0. */
module Syntax {
  import opened Lsp

  /** The node types of the Varlink grammar the handlers distinguish. `Interface`
      is the root, `Keyword` the `method`/`type`/`error`/`interface` token and
      `Other` every remaining node type. */
  datatype Kind =
    | Interface | InterfaceDeclaration | InterfaceName
    | Typedef | Typeref | Error | Method
    | Struct | StructField | Enum
    | Name | Keyword | Comment | Eol | Arrow
    | Bool | Int | Float | String | Object
    | Other

  /** One node. `text` is what get_text extracts from the document bytes (None
      when extraction fails); `name` and `keyword` are the indices of the
      named children a declaration carries, `members` the indices of a
      struct's fields or an enum's member names. */
  datatype Node = Node(
    kind: Kind,
    range: Range,
    parent: Option<nat>,
    text: Option<string>,
    name: Option<nat>,
    keyword: Option<nat>,
    members: seq<nat>)

  /** Kinds whose node has a `name` child. */
  predicate HasName(k: Kind) {
    k in {InterfaceDeclaration, Typedef, Typeref, Error, Method, StructField}
  }

  /** Kinds whose node has a `keyword` child. */
  predicate HasKeyword(k: Kind) {
    k in {InterfaceDeclaration, Typedef, Error, Method}
  }

  /** Identifier leaves: the nodes rename and hover act on. */
  predicate IsIdentifier(k: Kind) {
    k == Name || k == InterfaceName
  }

  /** Nodes are ordered by start position (util.rs relies on this). */
  predicate Sorted(nodes: seq<Node>) {
    forall i, j :: 0 <= i <= j < |nodes| ==> PosLe(nodes[i].range.start, nodes[j].range.start)
  }

  /** A parent is emitted before its children, so upward walks terminate. */
  predicate ParentsPrecede(nodes: seq<Node>) {
    forall i :: 0 <= i < |nodes| && nodes[i].parent.Some? ==> nodes[i].parent.value < i
  }

  /** Child links point into the arena, and every declaration has the children
      its grammar rule demands. */
  predicate Linked(nodes: seq<Node>) {
    forall i :: 0 <= i < |nodes| ==> LinkedAt(nodes, i)
  }

  predicate LinkedAt(nodes: seq<Node>, i: nat)
    requires i < |nodes|
  {
    var n := nodes[i];
    && (n.name.Some? ==> n.name.value < |nodes|)
    && (n.keyword.Some? ==> n.keyword.value < |nodes|)
    && (forall j :: 0 <= j < |n.members| ==> n.members[j] < |nodes|)
    && (HasName(n.kind) ==> n.name.Some?)
    && (HasKeyword(n.kind) ==> n.keyword.Some?)
    && (n.kind == Struct ==> forall j :: 0 <= j < |n.members| ==> nodes[n.members[j]].kind == StructField)
  }

  predicate WellFormed(nodes: seq<Node>) {
    Sorted(nodes) && ParentsPrecede(nodes) && Linked(nodes)
  }

  /** Index of node i's name child. */
  function NameOf(nodes: seq<Node>, i: nat): (c: nat)
    requires Linked(nodes) && i < |nodes| && HasName(nodes[i].kind)
    ensures c < |nodes|
  {
    assert LinkedAt(nodes, i);
    nodes[i].name.value
  }

  /** Index of node i's keyword child. */
  function KeywordOf(nodes: seq<Node>, i: nat): (c: nat)
    requires Linked(nodes) && i < |nodes| && HasKeyword(nodes[i].kind)
    ensures c < |nodes|
  {
    assert LinkedAt(nodes, i);
    nodes[i].keyword.value
  }

  /** Every node of kind k has a readable name child: where the source
      `unwrap`s the name text of all such nodes. */
  predicate NamesReadable(nodes: seq<Node>, k: Kind)
    requires Linked(nodes)
  {
    forall i :: 0 <= i < |nodes| ==> NameReadable(nodes, k, i)
  }

  /** Node i, if of kind k, has a readable name child. */
  predicate NameReadable(nodes: seq<Node>, k: Kind, i: nat)
    requires Linked(nodes) && i < |nodes|
  {
    nodes[i].kind == k && HasName(k) ==> nodes[NameOf(nodes, i)].text.Some?
  }

  /** Every node of kind k has readable text of its own. */
  predicate TextsReadable(nodes: seq<Node>, k: Kind) {
    forall i :: 0 <= i < |nodes| && nodes[i].kind == k ==> nodes[i].text.Some?
  }

  /** The chain of ancestors-or-self of node i, from i up to a parentless node:
      what repeated `get_parent` visits. */
  function Chain(nodes: seq<Node>, i: nat): (c: seq<nat>)
    requires ParentsPrecede(nodes) && i < |nodes|
    ensures |c| >= 1 && c[0] == i
    ensures forall k :: 0 <= k < |c| ==> c[k] <= i
    ensures forall k :: 0 < k < |c| ==> c[k] < c[k - 1] && nodes[c[k - 1]].parent == Some(c[k])
    ensures nodes[c[|c| - 1]].parent.None?
    decreases i
  {
    match nodes[i].parent
    case None => [i]
    case Some(p) => [i] + Chain(nodes, p)
  }

  /** The indices of the nodes whose kind is in ks, in document order. */
  function IndicesOfKinds(nodes: seq<Node>, ks: set<Kind>): (r: seq<nat>)
    ensures forall a :: 0 <= a < |r| ==> r[a] < |nodes| && nodes[r[a]].kind in ks
    ensures forall a, b :: 0 <= a < b < |r| ==> r[a] < r[b]
    ensures forall i :: i in r <==> 0 <= i < |nodes| && nodes[i].kind in ks
  {
    IndicesOfKindsBelow(nodes, ks, |nodes|)
  }

  function IndicesOfKindsBelow(nodes: seq<Node>, ks: set<Kind>, k: nat): (r: seq<nat>)
    requires k <= |nodes|
    ensures forall a :: 0 <= a < |r| ==> r[a] < k && nodes[r[a]].kind in ks
    ensures forall a, b :: 0 <= a < b < |r| ==> r[a] < r[b]
    ensures forall i :: i in r <==> 0 <= i < k && nodes[i].kind in ks
  {
    if k == 0 then []
    else
      var prefix := IndicesOfKindsBelow(nodes, ks, k - 1);
      if nodes[k - 1].kind in ks then prefix + [k - 1] else prefix
  }

  /** Typedef `i` declares the type `name`. */
  predicate DeclaresType(nodes: seq<Node>, i: nat, name: string)
    requires Linked(nodes) && i < |nodes|
  {
    nodes[i].kind == Typedef && nodes[NameOf(nodes, i)].text == Some(name)
  }

  /** Node `i` is a type reference whose text is `name`. */
  predicate RefersToType(nodes: seq<Node>, i: nat, name: string)
    requires i < |nodes|
  {
    nodes[i].kind == Typeref && nodes[i].text == Some(name)
  }

  /** The typedefs declaring `name`, in document order. */
  function TypedefsNamed(nodes: seq<Node>, name: string): (r: seq<nat>)
    requires Linked(nodes)
    ensures forall a :: 0 <= a < |r| ==> r[a] < |nodes| && DeclaresType(nodes, r[a], name)
    ensures forall a, b :: 0 <= a < b < |r| ==> r[a] < r[b]
    ensures forall i {:trigger i in r} :: i in r <==> 0 <= i < |nodes| && DeclaresType(nodes, i, name)
  {
    TypedefsNamedBelow(nodes, name, |nodes|)
  }

  function TypedefsNamedBelow(nodes: seq<Node>, name: string, k: nat): (r: seq<nat>)
    requires Linked(nodes) && k <= |nodes|
    ensures forall a :: 0 <= a < |r| ==> r[a] < k && DeclaresType(nodes, r[a], name)
    ensures forall a, b :: 0 <= a < b < |r| ==> r[a] < r[b]
    ensures forall i {:trigger i in r} :: i in r <==> 0 <= i < k && DeclaresType(nodes, i, name)
  {
    if k == 0 then []
    else
      var prefix := TypedefsNamedBelow(nodes, name, k - 1);
      if DeclaresType(nodes, k - 1, name) then prefix + [k - 1] else prefix
  }

  /** The type references spelled `name`, in document order. */
  function TyperefsNamed(nodes: seq<Node>, name: string): (r: seq<nat>)
    ensures forall a :: 0 <= a < |r| ==> r[a] < |nodes| && RefersToType(nodes, r[a], name)
    ensures forall a, b :: 0 <= a < b < |r| ==> r[a] < r[b]
    ensures forall i {:trigger i in r} :: i in r <==> 0 <= i < |nodes| && RefersToType(nodes, i, name)
  {
    TyperefsNamedBelow(nodes, name, |nodes|)
  }

  function TyperefsNamedBelow(nodes: seq<Node>, name: string, k: nat): (r: seq<nat>)
    requires k <= |nodes|
    ensures forall a :: 0 <= a < |r| ==> r[a] < k && RefersToType(nodes, r[a], name)
    ensures forall a, b :: 0 <= a < b < |r| ==> r[a] < r[b]
    ensures forall i {:trigger i in r} :: i in r <==> 0 <= i < k && RefersToType(nodes, i, name)
  {
    if k == 0 then []
    else
      var prefix := TyperefsNamedBelow(nodes, name, k - 1);
      if RefersToType(nodes, k - 1, name) then prefix + [k - 1] else prefix
  }
}
