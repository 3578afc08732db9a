/** Semantic tokens (src/capabilities/semantic_tokens.rs): the raw token
    stream pushed into the builder, node by node in document order. */
module SemanticTokens {
  import opened Lsp
  import opened Syntax
  import opened Seqs

  /** The standard token types the server declares. */
  datatype TokenType =
    | CommentToken | DecoratorToken | EnumMemberToken | EventToken | InterfaceToken
    | KeywordToken | MethodToken | NamespaceToken | PropertyToken | TypeToken

  /** SUPPORTED_TYPES, in declaration order: a token type is sent as its
      position in this list. */
  const SupportedTypes: seq<TokenType> := [
    CommentToken, DecoratorToken, EnumMemberToken, EventToken, InterfaceToken,
    KeywordToken, MethodToken, NamespaceToken, PropertyToken, TypeToken
  ]

  /** `iter().position(|x| *x == t)`: the first index holding t. */
  function PositionOf(types: seq<TokenType>, t: TokenType): (r: Option<nat>)
    ensures r.None? <==> t !in types
    ensures r.Some? ==> r.value < |types| && types[r.value] == t
    ensures r.Some? ==> forall k :: 0 <= k < r.value ==> types[k] != t
  {
    if |types| == 0 then None
    else if types[0] == t then Some(0)
    else
      match PositionOf(types[1..], t)
      case None => None
      case Some(k) => Some(k + 1)
  }

  /** The first index holding t is the one PositionOf finds. */
  lemma PositionOfFirst(types: seq<TokenType>, t: TokenType, n: nat)
    requires n < |types| && types[n] == t
    requires forall k :: 0 <= k < n ==> types[k] != t
    ensures PositionOf(types, t) == Some(n)
  {
  }

  /** The index a token type is sent as: its place in SupportedTypes. */
  function TypeIndex(t: TokenType): (n: nat)
    ensures n < |SupportedTypes| && SupportedTypes[n] == t
  {
    match t
    case CommentToken => 0
    case DecoratorToken => 1
    case EnumMemberToken => 2
    case EventToken => 3
    case InterfaceToken => 4
    case KeywordToken => 5
    case MethodToken => 6
    case NamespaceToken => 7
    case PropertyToken => 8
    case TypeToken => 9
  }

  /** No type is declared twice. */
  lemma SupportedTypesDistinct()
    ensures forall a, b :: 0 <= a < b < |SupportedTypes| ==> SupportedTypes[a] != SupportedTypes[b]
  {
  }

  /** `SUPPORTED_TYPES.iter().position(..).unwrap()` never fails and yields
      TypeIndex: every type is declared, and only once. */
  lemma PositionIsTypeIndex(t: TokenType)
    ensures PositionOf(SupportedTypes, t) == Some(TypeIndex(t))
  {
    SupportedTypesDistinct();
    PositionOfFirst(SupportedTypes, t, TypeIndex(t));
  }

  /** Distinct token types are sent as distinct indices below 10. */
  lemma TypeIndexInjective(t: TokenType, u: TokenType)
    ensures TypeIndex(t) < 10
    ensures TypeIndex(t) == TypeIndex(u) <==> t == u
  {
  }

  /** One pushed token: range, type index, modifier bitset. */
  datatype Token = Token(range: Range, tokenType: nat, modifiers: nat)

  /** The token types node kind k emits, in order; an enum emits one per
      member. */
  function KindTypes(k: Kind, members: nat): seq<TokenType> {
    match k
    case Method => [KeywordToken, MethodToken]
    case Typedef => [KeywordToken, TypeToken]
    case Error => [KeywordToken, EventToken]
    case InterfaceDeclaration => [InterfaceToken, NamespaceToken]
    case Enum => seq(members, _ => EnumMemberToken)
    case Typeref => [TypeToken]
    case Bool => [TypeToken]
    case Int => [TypeToken]
    case Float => [TypeToken]
    case String => [TypeToken]
    case Object => [TypeToken]
    case Comment => [CommentToken]
    case Arrow => [DecoratorToken]
    case StructField => [PropertyToken]
    case _ => []
  }

  /** The ranges node i's tokens sit on, one per entry of KindTypes: the
      keyword and the name of a declaration, each enum member, the name of a
      struct field, the whole node otherwise. */
  function Anchors(nodes: seq<Node>, i: nat): (r: seq<Range>)
    requires Linked(nodes) && i < |nodes|
    ensures |r| == |KindTypes(nodes[i].kind, |nodes[i].members|)|
  {
    assert LinkedAt(nodes, i);
    var n := nodes[i];
    match n.kind
    case Method => [nodes[KeywordOf(nodes, i)].range, nodes[NameOf(nodes, i)].range]
    case Typedef => [nodes[KeywordOf(nodes, i)].range, nodes[NameOf(nodes, i)].range]
    case Error => [nodes[KeywordOf(nodes, i)].range, nodes[NameOf(nodes, i)].range]
    case InterfaceDeclaration => [nodes[KeywordOf(nodes, i)].range, nodes[NameOf(nodes, i)].range]
    case Enum => seq(|n.members|, k requires 0 <= k < |n.members| => nodes[n.members[k]].range)
    case StructField => [nodes[NameOf(nodes, i)].range]
    case Comment => [n.range]
    case Arrow => [n.range]
    case Typeref => [n.range]
    case Bool => [n.range]
    case Int => [n.range]
    case Float => [n.range]
    case String => [n.range]
    case Object => [n.range]
    case _ => []
  }

  /** build_semantic_tokens of node i, dispatched on its kind: each anchor
      range paired with its token type, no modifiers. */
  function NodeTokens(nodes: seq<Node>, i: nat): (r: seq<Token>)
    requires Linked(nodes) && i < |nodes|
    ensures |r| == |KindTypes(nodes[i].kind, |nodes[i].members|)|
    ensures forall k :: 0 <= k < |r| ==>
      r[k] == Token(Anchors(nodes, i)[k], TypeIndex(KindTypes(nodes[i].kind, |nodes[i].members|)[k]), 0)
  {
    var types := KindTypes(nodes[i].kind, |nodes[i].members|);
    var anchors := Anchors(nodes, i);
    seq(|types|, k requires 0 <= k < |types| => Token(anchors[k], TypeIndex(types[k]), 0))
  }

  /** A declaration sends its keyword, then its name: KEYWORD (5) then
      METHOD (6) for a method, TYPE (9) for a typedef, EVENT (3) for an
      error. */
  lemma DeclarationTokensOnTheWire(nodes: seq<Node>, i: nat)
    requires Linked(nodes) && i < |nodes|
    requires nodes[i].kind in {Method, Typedef, Error}
    ensures var kw := nodes[KeywordOf(nodes, i)].range; var nm := nodes[NameOf(nodes, i)].range;
      var r := NodeTokens(nodes, i);
      && (nodes[i].kind == Method ==> r == [Token(kw, 5, 0), Token(nm, 6, 0)])
      && (nodes[i].kind == Typedef ==> r == [Token(kw, 5, 0), Token(nm, 9, 0)])
      && (nodes[i].kind == Error ==> r == [Token(kw, 5, 0), Token(nm, 3, 0)])
  {
    var r := NodeTokens(nodes, i);
    var types := KindTypes(nodes[i].kind, |nodes[i].members|);
    assert r[0] == Token(Anchors(nodes, i)[0], TypeIndex(types[0]), 0);
    assert r[1] == Token(Anchors(nodes, i)[1], TypeIndex(types[1]), 0);
  }

  /** An interface declaration sends INTERFACE (4) on its keyword, then
      NAMESPACE (7) on its name. */
  lemma InterfaceTokensOnTheWire(nodes: seq<Node>, i: nat)
    requires Linked(nodes) && i < |nodes| && nodes[i].kind == InterfaceDeclaration
    ensures NodeTokens(nodes, i) ==
      [Token(nodes[KeywordOf(nodes, i)].range, 4, 0), Token(nodes[NameOf(nodes, i)].range, 7, 0)]
  {
    var r := NodeTokens(nodes, i);
    var types := KindTypes(nodes[i].kind, |nodes[i].members|);
    assert r[0] == Token(Anchors(nodes, i)[0], TypeIndex(types[0]), 0);
    assert r[1] == Token(Anchors(nodes, i)[1], TypeIndex(types[1]), 0);
  }

  /** An enum sends one ENUM_MEMBER (2) per member, in member order. */
  lemma EnumTokensOnTheWire(nodes: seq<Node>, i: nat)
    requires Linked(nodes) && i < |nodes| && nodes[i].kind == Enum
    ensures LinkedAt(nodes, i)
    ensures var r := NodeTokens(nodes, i);
      |r| == |nodes[i].members| &&
      forall k :: 0 <= k < |r| ==> r[k] == Token(nodes[nodes[i].members[k]].range, 2, 0)
  {
  }

  /** A struct field sends PROPERTY (8) on its name; a type reference or a
      builtin type sends TYPE (9), a comment COMMENT (0) and an arrow
      DECORATOR (1) on the whole node; every other kind (Struct, Interface,
      Name and the rest) sends nothing. */
  lemma OtherTokensOnTheWire(nodes: seq<Node>, i: nat)
    requires Linked(nodes) && i < |nodes|
    requires nodes[i].kind !in {Method, Typedef, Error, InterfaceDeclaration, Enum}
    ensures var n := nodes[i]; var r := NodeTokens(nodes, i);
      && (n.kind == StructField ==> r == [Token(nodes[NameOf(nodes, i)].range, 8, 0)])
      && (n.kind in {Typeref, Bool, Int, Float, String, Object} ==> r == [Token(n.range, 9, 0)])
      && (n.kind == Comment ==> r == [Token(n.range, 0, 0)])
      && (n.kind == Arrow ==> r == [Token(n.range, 1, 0)])
      && (n.kind !in {StructField, Typeref, Bool, Int, Float, String, Object, Comment, Arrow} ==> r == [])
  {
    var r := NodeTokens(nodes, i);
    if |r| > 0 {
      assert r[0] == Token(Anchors(nodes, i)[0], TypeIndex(KindTypes(nodes[i].kind, |nodes[i].members|)[0]), 0);
    }
  }

  /** The tokens of every node, in document order. */
  function PerNode(nodes: seq<Node>): (r: seq<seq<Token>>)
    requires Linked(nodes)
    ensures |r| == |nodes|
    ensures forall i :: 0 <= i < |nodes| ==> r[i] == NodeTokens(nodes, i)
  {
    seq(|nodes|, i requires 0 <= i < |nodes| => NodeTokens(nodes, i))
  }

  /** semantic_tokens_full, before the builder encodes the stream: the
      tokens of every node in turn, each a declared type without
      modifiers. */
  function Tokens(nodes: seq<Node>): (r: seq<Token>)
    requires Linked(nodes)
    ensures forall t :: t in r ==> t.tokenType < |SupportedTypes| && t.modifiers == 0
  {
    var ss := PerNode(nodes);
    forall t | t in Flatten(ss)
      ensures t.tokenType < |SupportedTypes| && t.modifiers == 0
    {
      FlattenHas(ss, t);
    }
    Flatten(ss)
  }

  /** Node i's tokens sit in the stream right after those of the nodes
      before it: nodes are visited in document order. */
  lemma NodeTokensInStream(nodes: seq<Node>, i: nat)
    requires Linked(nodes) && i < |nodes|
    ensures var start := |Flatten(PerNode(nodes)[..i])|;
      start + |NodeTokens(nodes, i)| <= |Tokens(nodes)| &&
      Tokens(nodes)[start..start + |NodeTokens(nodes, i)|] == NodeTokens(nodes, i)
  {
    FlattenAtOf(PerNode(nodes), Tokens(nodes), i, NodeTokens(nodes, i));
  }
}
