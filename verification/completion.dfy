/** Completion (src/capabilities/completion.rs): declaration snippets on a
    blank line, type names after a type position's punctuation. */
module Completion {
  import opened Lsp
  import opened Syntax
  import opened Text

  datatype ItemKind = KeywordItem | StructItem | ClassItem

  /** A completion item; `snippet` says the insert text is a snippet. */
  datatype CompletionItem = CompletionItem(labelText: string, kind: ItemKind, insertText: Option<string>, snippet: bool)

  datatype Snippet = Snippet(labelText: string, insertText: string)

  const Declarations: seq<Snippet> := [
    Snippet("interface", "interface ${1}"),
    Snippet("method", "method ${1} (${2}) -> (${3})"),
    Snippet("type", "type ${1} (${2})"),
    Snippet("error", "error ${1} (${2})")
  ]

  const BuiltinTypes: seq<Snippet> := [
    Snippet("bool", "bool"),
    Snippet("int", "int"),
    Snippet("float", "float"),
    Snippet("string", "string"),
    Snippet("object", "object"),
    Snippet("any", "any")
  ]

  /** The text before the character just typed, trimmed. */
  function LineBefore(line: string, character: nat): string
    requires 1 <= character <= |line| + 1
  {
    Trim(line[..character - 1])
  }

  /** A type may follow: the line holds no comment and the text before the
      cursor ends in a type position's punctuation. */
  predicate TypeContext(line: string, before: string) {
    '#' !in line &&
    (EndsWith(before, ":") || EndsWith(before, "?") || EndsWith(before, "[]") || EndsWith(before, "[string]"))
  }

  function SnippetItems(snippets: seq<Snippet>, kind: ItemKind): (r: seq<CompletionItem>)
    ensures |r| == |snippets|
    ensures forall k :: 0 <= k < |r| ==>
      r[k] == CompletionItem(snippets[k].labelText, kind, Some(snippets[k].insertText), true)
  {
    seq(|snippets|, k requires 0 <= k < |snippets| =>
      CompletionItem(snippets[k].labelText, kind, Some(snippets[k].insertText), true))
  }

  // ---------------------------------------------------------------------
  // Typedef names, first occurrence first
  // ---------------------------------------------------------------------

  /** The readable typedef names of nodes[..upto], in document order and
      with repeats; unreadable names are passed over. */
  function TypedefNamesBelow(nodes: seq<Node>, upto: nat): (r: seq<string>)
    requires Linked(nodes) && upto <= |nodes|
    ensures forall name :: name in r <==>
      exists i :: 0 <= i < upto && nodes[i].kind == Typedef && nodes[NameOf(nodes, i)].text == Some(name)
  {
    if upto == 0 then []
    else
      var prefix := TypedefNamesBelow(nodes, upto - 1);
      var i := upto - 1;
      if nodes[i].kind == Typedef && nodes[NameOf(nodes, i)].text.Some? then
        prefix + [nodes[NameOf(nodes, i)].text.value]
      else prefix
  }

  function TypedefNames(nodes: seq<Node>): seq<string>
    requires Linked(nodes)
  {
    TypedefNamesBelow(nodes, |nodes|)
  }

  /** The index of the first occurrence of x in s. */
  function FirstIndex(s: seq<string>, x: string): (k: nat)
    requires x in s
    ensures k < |s| && s[k] == x
    ensures forall j :: 0 <= j < k ==> s[j] != x
  {
    if s[0] == x then 0 else 1 + FirstIndex(s[1..], x)
  }

  /** s with every repeat of an earlier element dropped. */
  function Dedup(s: seq<string>): seq<string> {
    if |s| == 0 then []
    else
      var prior := Dedup(s[..|s| - 1]);
      if s[|s| - 1] in prior then prior else prior + [s[|s| - 1]]
  }

  /** Dedup of s extended by x is Dedup of s, extended by x when x is new. */
  lemma DedupSnoc(s: seq<string>, x: string)
    ensures x in Dedup(s) ==> Dedup(s + [x]) == Dedup(s)
    ensures x !in Dedup(s) ==> Dedup(s + [x]) == Dedup(s) + [x]
  {
    assert (s + [x])[..|s|] == s;
  }

  predicate Distinct(s: seq<string>) {
    forall a, b :: 0 <= a < b < |s| ==> s[a] != s[b]
  }

  /** Dedup keeps each element of s exactly once. */
  lemma {:induction false} DedupMembers(s: seq<string>)
    ensures Distinct(Dedup(s))
    ensures forall x :: x in Dedup(s) <==> x in s
  {
    if |s| > 0 {
      DedupMembers(s[..|s| - 1]);
      assert s == s[..|s| - 1] + [s[|s| - 1]];
    }
  }

  /** Dedup lists the elements of s in the order of their first occurrence. */
  lemma {:induction false} DedupOrder(s: seq<string>)
    ensures forall x :: x in Dedup(s) ==> x in s
    ensures forall a, b :: 0 <= a < b < |Dedup(s)| ==> FirstIndex(s, Dedup(s)[a]) < FirstIndex(s, Dedup(s)[b])
  {
    DedupMembers(s);
    if |s| > 0 {
      var front := s[..|s| - 1];
      var last := s[|s| - 1];
      var prior := Dedup(front);
      DedupMembers(front);
      DedupOrder(front);
      var r := Dedup(s);
      forall a, b | 0 <= a < b < |r|
        ensures FirstIndex(s, r[a]) < FirstIndex(s, r[b])
      {
        assert r[a] == prior[a] && prior[a] in front;
        FirstIndexPrefix(s, front, r[a]);
        if b < |prior| {
          assert r[b] == prior[b] && prior[b] in front;
          FirstIndexPrefix(s, front, r[b]);
        } else {
          assert r[b] == last && last !in front;
          assert FirstIndex(s, last) == |s| - 1;
        }
      }
    }
  }

  /** The reference properties of Dedup together. */
  lemma DedupSpec(s: seq<string>)
    ensures Distinct(Dedup(s))
    ensures forall x :: x in Dedup(s) <==> x in s
    ensures forall a, b :: 0 <= a < b < |Dedup(s)| ==> FirstIndex(s, Dedup(s)[a]) < FirstIndex(s, Dedup(s)[b])
  {
    DedupMembers(s);
    DedupOrder(s);
  }

  /** A first occurrence inside a prefix is the first occurrence overall. */
  lemma {:induction false} FirstIndexPrefix(s: seq<string>, front: seq<string>, x: string)
    requires front <= s && x in front
    ensures x in s && FirstIndex(s, x) == FirstIndex(front, x)
  {
    assert front[FirstIndex(front, x)] == s[FirstIndex(front, x)];
    if s[0] != x {
      assert front[0] == s[0];
      FirstIndexPrefix(s[1..], front[1..], x);
    }
  }

  /** The HashSet loop of completion: each readable typedef name is added
      the first time it is met. */
  method UniqueTypedefNames(nodes: seq<Node>) returns (names: seq<string>)
    requires Linked(nodes)
    ensures names == Dedup(TypedefNames(nodes))
    ensures Distinct(names)
    ensures forall x :: x in names <==> x in TypedefNames(nodes)
  {
    var seen: set<string> := {};
    names := [];
    var i := 0;
    while i < |nodes|
      invariant 0 <= i <= |nodes|
      invariant names == Dedup(TypedefNamesBelow(nodes, i))
      invariant forall x :: x in seen <==> x in names
    {
      if nodes[i].kind == Typedef && nodes[NameOf(nodes, i)].text.Some? {
        var name := nodes[NameOf(nodes, i)].text.value;
        DedupSnoc(TypedefNamesBelow(nodes, i), name);
        if name !in seen {
          seen := seen + {name};
          names := names + [name];
        }
      }
      i := i + 1;
    }
    DedupSpec(TypedefNames(nodes));
  }

  // ---------------------------------------------------------------------
  // completion
  // ---------------------------------------------------------------------

  function DeclarationItems(): seq<CompletionItem> {
    SnippetItems(Declarations, KeywordItem)
  }

  function TypeItems(names: seq<string>): (r: seq<CompletionItem>)
    ensures |r| == |BuiltinTypes| + |names|
    ensures r[..|BuiltinTypes|] == SnippetItems(BuiltinTypes, StructItem)
    ensures forall k :: 0 <= k < |names| ==>
      r[|BuiltinTypes| + k] == CompletionItem(names[k], ClassItem, None, false)
  {
    SnippetItems(BuiltinTypes, StructItem) +
    seq(|names|, k requires 0 <= k < |names| => CompletionItem(names[k], ClassItem, None, false))
  }

  /** completion for the cursor at `character` on `line` (the character
      before the cursor is the one just typed). The result is always given,
      possibly empty. The two branches never both fire: a blank prefix ends
      in no type punctuation. */
  function Completion(nodes: seq<Node>, line: string, character: nat): (r: Option<seq<CompletionItem>>)
    requires Linked(nodes) && 1 <= character <= |line| + 1
    ensures r.Some?
    ensures !(LineBefore(line, character) == [] && TypeContext(line, LineBefore(line, character)))
    ensures LineBefore(line, character) == [] ==>
      r.value == DeclarationItems() && forall it :: it in r.value ==> it.kind == KeywordItem
    ensures TypeContext(line, LineBefore(line, character)) ==>
      r.value == TypeItems(Dedup(TypedefNames(nodes)))
    ensures LineBefore(line, character) != [] && !TypeContext(line, LineBefore(line, character)) ==>
      r.value == []
  {
    var before := LineBefore(line, character);
    var declarations := if before == [] then DeclarationItems() else [];
    var types := if TypeContext(line, before) then TypeItems(Dedup(TypedefNames(nodes))) else [];
    Some(declarations + types)
  }

  /** The class items name every readable typedef once, in the order the
      typedefs first appear. */
  lemma ClassItemsAreTypedefNames(nodes: seq<Node>, line: string, character: nat)
    requires Linked(nodes) && 1 <= character <= |line| + 1
    requires TypeContext(line, LineBefore(line, character))
    ensures var items := Completion(nodes, line, character).value;
      |items| >= |BuiltinTypes| &&
      var classes := items[|BuiltinTypes|..];
      (forall k :: 0 <= k < |classes| ==> classes[k].kind == ClassItem) &&
      (forall a, b :: 0 <= a < b < |classes| ==> classes[a].labelText != classes[b].labelText) &&
      (forall name :: name in TypedefNames(nodes) <==> exists k :: 0 <= k < |classes| && classes[k].labelText == name)
  {
    assert Completion(nodes, line, character).value == TypeItems(Dedup(TypedefNames(nodes)));
    TypeItemsNameTypedefs(nodes);
  }

  /** The class items after the builtins name every readable typedef once. */
  lemma TypeItemsNameTypedefs(nodes: seq<Node>)
    requires Linked(nodes)
    ensures var items := TypeItems(Dedup(TypedefNames(nodes)));
      |items| >= |BuiltinTypes| &&
      var classes := items[|BuiltinTypes|..];
      (forall k :: 0 <= k < |classes| ==> classes[k].kind == ClassItem) &&
      (forall a, b :: 0 <= a < b < |classes| ==> classes[a].labelText != classes[b].labelText) &&
      (forall name :: name in TypedefNames(nodes) <==> exists k :: 0 <= k < |classes| && classes[k].labelText == name)
  {
    DedupMembers(TypedefNames(nodes));
    ClassItemsList(Dedup(TypedefNames(nodes)), TypedefNames(nodes));
  }

  /** Type items for distinct names covering exactly the elements of all:
      after the builtins, one class item per element of all. */
  lemma ClassItemsList(names: seq<string>, all: seq<string>)
    requires Distinct(names) && forall x :: x in names <==> x in all
    ensures var items := TypeItems(names);
      |items| >= |BuiltinTypes| &&
      var classes := items[|BuiltinTypes|..];
      (forall k :: 0 <= k < |classes| ==> classes[k].kind == ClassItem) &&
      (forall a, b :: 0 <= a < b < |classes| ==> classes[a].labelText != classes[b].labelText) &&
      (forall name :: name in all <==> exists k :: 0 <= k < |classes| && classes[k].labelText == name)
  {
    var items := TypeItems(names);
    var classes := items[|BuiltinTypes|..];
    assert |classes| == |names|;
    forall k | 0 <= k < |classes|
      ensures classes[k] == CompletionItem(names[k], ClassItem, None, false)
    {
      assert classes[k] == items[|BuiltinTypes| + k];
    }
    forall name | name in all
      ensures exists k :: 0 <= k < |classes| && classes[k].labelText == name
    {
      assert name in names;
      var k :| 0 <= k < |names| && names[k] == name;
      assert classes[k].labelText == name;
    }
  }
}
