/** The document diagnostics of src/capabilities/diagnostics.rs: parse errors,
    duplicate declarations (global and per struct/enum scope), unknown type
    references and the missing trailing newline. */
module Diagnostics {
  import opened Lsp
  import opened Syntax

  /** One entry of an occurrence map: a name text and the range it sits at. */
  datatype Occurrence = Occurrence(name: string, range: Range)

  const AlsoDeclaredHere: string := "also declared here"
  const MissingNewlineMessage: string := "missing trailing newline"

  /** The largest row count `try_into` a u32 accepts, plus one. */
  const U32Limit: nat := 0x1_0000_0000

  // ---------------------------------------------------------------------
  // Occurrence maps
  // ---------------------------------------------------------------------

  /** The ranges recorded under `name`, in the order they were met. */
  function RangesNamed(occs: seq<Occurrence>, name: string): seq<Range> {
    if |occs| == 0 then []
    else
      var last := occs[|occs| - 1];
      RangesNamed(occs[..|occs| - 1], name) + (if last.name == name then [last.range] else [])
  }

  /** A map lookup that yields the empty list for a missing key. */
  function Lookup(m: map<string, seq<Range>>, name: string): seq<Range> {
    if name in m then m[name] else []
  }

  /** `entry(name).or_insert_with(Vec::new).push(range)`, once per occurrence. */
  function OccurrenceMap(occs: seq<Occurrence>): (m: map<string, seq<Range>>)
    ensures forall name :: name in m <==> |RangesNamed(occs, name)| > 0
    ensures forall name :: Lookup(m, name) == RangesNamed(occs, name)
  {
    if |occs| == 0 then map[]
    else
      var prior := OccurrenceMap(occs[..|occs| - 1]);
      var last := occs[|occs| - 1];
      prior[last.name := Lookup(prior, last.name) + [last.range]]
  }

  /** The keys of an occurrence map, each once. The source walks a HashMap,
      whose order is unspecified; the model walks first-occurrence order. */
  function Keys(occs: seq<Occurrence>): (r: seq<string>)
    ensures forall a, b :: 0 <= a < b < |r| ==> r[a] != r[b]
    ensures forall name :: name in r <==> |RangesNamed(occs, name)| > 0
  {
    if |occs| == 0 then []
    else
      var prior := Keys(occs[..|occs| - 1]);
      var last := occs[|occs| - 1];
      if last.name in prior then prior else prior + [last.name]
  }

  /** No name occurs twice. */
  predicate DistinctNames(occs: seq<Occurrence>) {
    forall a, b :: 0 <= a < b < |occs| ==> occs[a].name != occs[b].name
  }

  lemma {:induction false} RangesNamedNonEmpty(occs: seq<Occurrence>, name: string)
    ensures |RangesNamed(occs, name)| > 0 <==> exists k :: 0 <= k < |occs| && occs[k].name == name
  {
    if |occs| > 0 {
      var prefix := occs[..|occs| - 1];
      RangesNamedNonEmpty(prefix, name);
      if exists k :: 0 <= k < |prefix| && prefix[k].name == name {
        var k :| 0 <= k < |prefix| && prefix[k].name == name;
        assert occs[k].name == name;
      }
      if exists k :: 0 <= k < |occs| && occs[k].name == name {
        var k :| 0 <= k < |occs| && occs[k].name == name;
        if k < |prefix| {
          assert prefix[k].name == name;
        }
      }
    }
  }

  lemma {:induction false} DistinctNamesSingletons(occs: seq<Occurrence>, name: string)
    requires DistinctNames(occs)
    ensures |RangesNamed(occs, name)| <= 1
  {
    if |occs| > 0 {
      var prefix := occs[..|occs| - 1];
      var last := occs[|occs| - 1];
      assert DistinctNames(prefix) by {
        forall a, b | 0 <= a < b < |prefix| ensures prefix[a].name != prefix[b].name {
          assert prefix[a] == occs[a] && prefix[b] == occs[b];
        }
      }
      DistinctNamesSingletons(prefix, name);
      if last.name == name {
        RangesNamedNonEmpty(prefix, name);
        forall k | 0 <= k < |prefix| ensures prefix[k].name != name {
          assert prefix[k] == occs[k];
        }
      }
    }
  }

  /** A name met at two indices has at least two recorded ranges. */
  lemma {:induction false} RepeatedNameRanges(occs: seq<Occurrence>, a: nat, b: nat)
    requires a < b < |occs| && occs[a].name == occs[b].name
    ensures |RangesNamed(occs, occs[a].name)| >= 2
  {
    var prefix := occs[..|occs| - 1];
    if b < |occs| - 1 {
      assert prefix[a] == occs[a] && prefix[b] == occs[b];
      RepeatedNameRanges(prefix, a, b);
    } else {
      assert prefix[a] == occs[a];
      RangesNamedNonEmpty(prefix, occs[a].name);
    }
  }

  /** Names are distinct exactly when no name has two recorded ranges. */
  lemma DistinctNamesIffSingletons(occs: seq<Occurrence>)
    ensures DistinctNames(occs) <==> forall name :: |RangesNamed(occs, name)| <= 1
  {
    if DistinctNames(occs) {
      forall name ensures |RangesNamed(occs, name)| <= 1 {
        DistinctNamesSingletons(occs, name);
      }
    } else {
      var a, b :| 0 <= a < b < |occs| && occs[a].name == occs[b].name;
      RepeatedNameRanges(occs, a, b);
    }
  }

  // ---------------------------------------------------------------------
  // Diagnostics for one name
  // ---------------------------------------------------------------------

  function DupMessage(noun: string, name: string): string {
    noun + " `" + name + "` declared multiple times"
  }

  function UnknownMessage(name: string): string {
    "unknown type `" + name + "`"
  }

  lemma WrappedInjective(prefix: string, x: string, y: string, suffix: string)
    requires prefix + x + suffix == prefix + y + suffix
    ensures x == y
  {
    var s := prefix + x + suffix;
    assert |x| == |y|;
    assert x == s[|prefix|..|prefix| + |x|];
  }

  lemma DupMessageInjective(noun: string, x: string, y: string)
    requires DupMessage(noun, x) == DupMessage(noun, y)
    ensures x == y
  {
    WrappedInjective(noun + " `", x, y, "` declared multiple times");
  }

  lemma UnknownMessageInjective(x: string, y: string)
    requires UnknownMessage(x) == UnknownMessage(y)
    ensures x == y
  {
    WrappedInjective("unknown type `", x, y, "`");
  }

  /** `enumerate().filter(|(j, _)| *j != i)`: every range but the one at `skip`. */
  function Others(ranges: seq<Range>, skip: nat): (r: seq<Range>)
    ensures skip < |ranges| ==> r == ranges[..skip] + ranges[skip + 1..]
    ensures skip >= |ranges| ==> r == ranges
  {
    if |ranges| == 0 then []
    else
      var prefix := ranges[..|ranges| - 1];
      var last := ranges[|ranges| - 1];
      assert prefix + [last] == ranges;
      Others(prefix, skip) + (if |ranges| - 1 != skip then [last] else [])
  }

  function RelatedTo(ranges: seq<Range>, skip: nat, uri: Uri): seq<RelatedInformation> {
    var others := Others(ranges, skip);
    seq(|others|, k requires 0 <= k < |others| => RelatedInformation(Location(uri, others[k]), AlsoDeclaredHere))
  }

  /** The ranges a diagnostic's related entries point at. */
  function RelatedRanges(d: Diagnostic): seq<Range> {
    match d.related
    case None => []
    case Some(rel) => seq(|rel|, k requires 0 <= k < |rel| => rel[k].location.range)
  }

  /** The duplicate diagnostics for one name recorded at `ranges`. */
  function DuplicatesOf(noun: string, name: string, ranges: seq<Range>, uri: Uri): (ds: seq<Diagnostic>)
    ensures |ranges| <= 1 ==> ds == []
    ensures |ranges| > 1 ==> |ds| == |ranges|
    ensures forall i :: 0 <= i < |ds| ==>
      && ds[i].range == ranges[i]
      && ds[i].severity == Some(SevError)
      && ds[i].message == DupMessage(noun, name)
      && ds[i].related.Some?
      && |ds[i].related.value| == |ranges| - 1
      && RelatedRanges(ds[i]) == ranges[..i] + ranges[i + 1..]
      && forall e :: e in ds[i].related.value ==> e.location.uri == uri && e.message == AlsoDeclaredHere
  {
    if |ranges| > 1 then
      seq(|ranges|, i requires 0 <= i < |ranges| =>
        Diagnostic(ranges[i], Some(SevError), DupMessage(noun, name), Some(RelatedTo(ranges, i, uri))))
    else []
  }

  /** One "unknown type" error per occurrence of a reference to `name`. */
  function UnknownsOf(name: string, ranges: seq<Range>): (ds: seq<Diagnostic>)
    ensures |ds| == |ranges|
    ensures forall i :: 0 <= i < |ds| ==>
      ds[i] == Diagnostic(ranges[i], Some(SevError), UnknownMessage(name), None)
  {
    seq(|ranges|, i requires 0 <= i < |ranges| =>
      Diagnostic(ranges[i], Some(SevError), UnknownMessage(name), None))
  }

  // ---------------------------------------------------------------------
  // Walking a map's keys
  // ---------------------------------------------------------------------

  /** The concatenation of one block of diagnostics per key, in key order. */
  function Blocks<K>(keys: seq<K>, block: K -> seq<Diagnostic>): seq<Diagnostic> {
    if |keys| == 0 then [] else block(keys[0]) + Blocks(keys[1..], block)
  }

  /** The diagnostics carrying exactly the message `msg`, in order. */
  function WithMessage(ds: seq<Diagnostic>, msg: string): (r: seq<Diagnostic>)
    ensures forall d :: d in r ==> d in ds && d.message == msg
  {
    if |ds| == 0 then []
    else (if ds[0].message == msg then [ds[0]] else []) + WithMessage(ds[1..], msg)
  }

  lemma {:induction false} WithMessageAppend(a: seq<Diagnostic>, b: seq<Diagnostic>, msg: string)
    ensures WithMessage(a + b, msg) == WithMessage(a, msg) + WithMessage(b, msg)
  {
    if |a| > 0 {
      assert (a + b)[1..] == a[1..] + b;
      WithMessageAppend(a[1..], b, msg);
    } else {
      assert a + b == b;
    }
  }

  lemma {:induction false} WithMessageAll(ds: seq<Diagnostic>, msg: string)
    requires forall d :: d in ds ==> d.message == msg
    ensures WithMessage(ds, msg) == ds
  {
    if |ds| > 0 {
      WithMessageAll(ds[1..], msg);
    }
  }

  lemma {:induction false} WithMessageNone(ds: seq<Diagnostic>, msg: string)
    requires forall d :: d in ds ==> d.message != msg
    ensures WithMessage(ds, msg) == []
  {
    if |ds| > 0 {
      WithMessageNone(ds[1..], msg);
    }
  }

  /** Filtering the blocks for one key's message keeps exactly that key's
      block, when keys are distinct and messages identify their key. */
  lemma {:induction false} WithMessageOfBlocks(keys: seq<string>, block: string -> seq<Diagnostic>,
                                              msg: string -> string, name: string)
    requires forall a, b :: 0 <= a < b < |keys| ==> keys[a] != keys[b]
    requires forall k, d :: d in block(k) ==> d.message == msg(k)
    requires forall k :: msg(k) == msg(name) ==> k == name
    ensures name in keys ==> WithMessage(Blocks(keys, block), msg(name)) == block(name)
    ensures name !in keys ==> WithMessage(Blocks(keys, block), msg(name)) == []
  {
    if |keys| > 0 {
      var head, tail := keys[0], keys[1..];
      var here, rest := WithMessage(block(head), msg(name)), WithMessage(Blocks(tail, block), msg(name));
      WithMessageAppend(block(head), Blocks(tail, block), msg(name));
      WithMessageOfBlocks(tail, block, msg, name);
      if head == name {
        WithMessageAll(block(head), msg(name));
        HeadNotInTail(keys);
        AppendNil(WithMessage(Blocks(keys, block), msg(name)), here, rest);
      } else {
        WithMessageNone(block(head), msg(name));
        InTailIff(keys, name);
        NilAppend(WithMessage(Blocks(keys, block), msg(name)), here, rest);
      }
    }
  }

  lemma AppendNil<T>(t: seq<T>, a: seq<T>, e: seq<T>)
    requires t == a + e && e == []
    ensures t == a
  {
  }

  lemma NilAppend<T>(t: seq<T>, e: seq<T>, b: seq<T>)
    requires t == e + b && e == []
    ensures t == b
  {
  }

  /** In a list without repeats the head is not in the tail. */
  lemma HeadNotInTail<T>(keys: seq<T>)
    requires |keys| > 0 && forall a, b :: 0 <= a < b < |keys| ==> keys[a] != keys[b]
    ensures keys[0] !in keys[1..]
  {
    forall j | 0 <= j < |keys| - 1 ensures keys[1..][j] != keys[0] {
      assert keys[1..][j] == keys[j + 1];
    }
  }

  /** Anything but the head is in the list exactly when it is in the tail. */
  lemma InTailIff<T>(keys: seq<T>, x: T)
    requires |keys| > 0 && keys[0] != x
    ensures x in keys <==> x in keys[1..]
  {
    assert keys == [keys[0]] + keys[1..];
  }

  lemma {:induction false} BlocksEmpty<K>(keys: seq<K>, block: K -> seq<Diagnostic>)
    ensures Blocks(keys, block) == [] <==> forall k :: k in keys ==> block(k) == []
  {
    if |keys| > 0 {
      BlocksEmpty(keys[1..], block);
      assert keys == [keys[0]] + keys[1..];
    }
  }

  lemma {:induction false} BlocksMembers<K>(keys: seq<K>, block: K -> seq<Diagnostic>, d: Diagnostic)
    requires d in Blocks(keys, block)
    ensures exists k :: k in keys && d in block(k)
  {
    if d !in block(keys[0]) {
      BlocksMembers(keys[1..], block, d);
      var k :| k in keys[1..] && d in block(k);
      assert k in keys;
    }
  }

  // ---------------------------------------------------------------------
  // Duplicate declarations within one scope
  // ---------------------------------------------------------------------

  /** The block emitted for one key of a scope's occurrence map. */
  function DupBlock(noun: string, m: map<string, seq<Range>>, uri: Uri): string -> seq<Diagnostic> {
    name => DuplicatesOf(noun, name, Lookup(m, name), uri)
  }

  /** Every diagnostic of a concatenation of blocks is an error whose message
      is the one its block's key determines. */
  lemma {:induction false} BlocksOfErrors<K>(keys: seq<K>, block: K -> seq<Diagnostic>, msg: K -> string, plain: bool)
    requires forall k, d :: d in block(k) ==> d.severity == Some(SevError) && d.message == msg(k)
    requires forall k, d :: d in block(k) ==> plain ==> d.related.None?
    ensures forall d :: d in Blocks(keys, block) ==> d.severity == Some(SevError) && exists k :: d.message == msg(k)
    ensures forall d :: d in Blocks(keys, block) ==> plain ==> d.related.None?
  {
    forall d | d in Blocks(keys, block)
      ensures d.severity == Some(SevError) && (exists k :: d.message == msg(k)) && (plain ==> d.related.None?)
    {
      BlocksMembers(keys, block, d);
    }
  }

  /** The duplicate diagnostics of one scope: walk the occurrence map and
      report every name recorded more than once. */
  function DuplicateDiagnostics(noun: string, occs: seq<Occurrence>, uri: Uri): (ds: seq<Diagnostic>)
    ensures forall d :: d in ds ==> d.severity == Some(SevError)
    ensures forall d :: d in ds ==> exists name :: d.message == DupMessage(noun, name)
  {
    var block := DupBlock(noun, OccurrenceMap(occs), uri);
    var msg := n => DupMessage(noun, n);
    BlocksOfErrors(Keys(occs), block, msg, false);
    Blocks(Keys(occs), block)
  }

  /** Per name: a name met n > 1 times in the scope yields exactly n
      diagnostics, one at each occurrence, each pointing at the n - 1 others;
      a name met once yields none. */
  lemma DuplicatesReportedPerName(noun: string, occs: seq<Occurrence>, uri: Uri, name: string)
    ensures WithMessage(DuplicateDiagnostics(noun, occs, uri), DupMessage(noun, name))
         == DuplicatesOf(noun, name, RangesNamed(occs, name), uri)
    ensures |WithMessage(DuplicateDiagnostics(noun, occs, uri), DupMessage(noun, name))|
         == if |RangesNamed(occs, name)| > 1 then |RangesNamed(occs, name)| else 0
  {
    var block := DupBlock(noun, OccurrenceMap(occs), uri);
    var msg := n => DupMessage(noun, n);
    forall k | msg(k) == msg(name) ensures k == name {
      DupMessageInjective(noun, k, name);
    }
    forall k, d | d in block(k) ensures d.message == msg(k) {
    }
    WithMessageOfBlocks(Keys(occs), block, msg, name);
  }

  /** A scope yields no duplicate diagnostic exactly when its names are
      pairwise distinct. */
  lemma NoDuplicatesIffDistinct(noun: string, occs: seq<Occurrence>, uri: Uri)
    ensures DuplicateDiagnostics(noun, occs, uri) == [] <==> DistinctNames(occs)
  {
    var block := DupBlock(noun, OccurrenceMap(occs), uri);
    BlocksEmpty(Keys(occs), block);
    DistinctNamesIffSingletons(occs);
    if DuplicateDiagnostics(noun, occs, uri) == [] {
      forall name ensures |RangesNamed(occs, name)| <= 1 {
        if |RangesNamed(occs, name)| > 0 {
          assert name in Keys(occs);
          assert block(name) == [];
        }
      }
    } else {
      var name :| name in Keys(occs) && block(name) != [];
      assert |RangesNamed(occs, name)| > 1;
    }
  }

  // ---------------------------------------------------------------------
  // Occurrences in the document
  // ---------------------------------------------------------------------

  /** The name child of node i, as an occurrence. */
  function NameOccurrence(nodes: seq<Node>, i: nat): Occurrence
    requires Linked(nodes) && i < |nodes| && HasName(nodes[i].kind)
    requires NamesReadable(nodes, nodes[i].kind)
  {
    assert NameReadable(nodes, nodes[i].kind, i);
    var c := NameOf(nodes, i);
    Occurrence(nodes[c].text.value, nodes[c].range)
  }

  /** The occurrence list of kind k's name children, in document order. */
  function NameOccurrences(nodes: seq<Node>, k: Kind): (occs: seq<Occurrence>)
    requires Linked(nodes) && HasName(k) && NamesReadable(nodes, k)
    ensures |occs| == |IndicesOfKinds(nodes, {k})|
    ensures forall j :: 0 <= j < |occs| ==> occs[j] == NameOccurrence(nodes, IndicesOfKinds(nodes, {k})[j])
  {
    NameOccurrencesBelow(nodes, k, |nodes|)
  }

  function NameOccurrencesBelow(nodes: seq<Node>, k: Kind, upto: nat): (occs: seq<Occurrence>)
    requires Linked(nodes) && HasName(k) && NamesReadable(nodes, k) && upto <= |nodes|
    ensures |occs| == |IndicesOfKindsBelow(nodes, {k}, upto)|
    ensures forall j :: 0 <= j < |occs| ==>
      occs[j] == NameOccurrence(nodes, IndicesOfKindsBelow(nodes, {k}, upto)[j])
  {
    if upto == 0 then []
    else
      var prior := NameOccurrencesBelow(nodes, k, upto - 1);
      if nodes[upto - 1].kind == k then prior + [NameOccurrence(nodes, upto - 1)] else prior
  }

  /** Every struct field name and every enum member can be read. */
  predicate MembersReadable(nodes: seq<Node>)
    requires Linked(nodes)
  {
    NamesReadable(nodes, StructField) && forall i :: 0 <= i < |nodes| ==> EnumReadable(nodes, i)
  }

  /** Node i, if an enum, has readable members. */
  predicate EnumReadable(nodes: seq<Node>, i: nat)
    requires i < |nodes|
  {
    nodes[i].kind == Enum ==>
      forall j :: 0 <= j < |nodes[i].members| ==>
        nodes[i].members[j] < |nodes| && nodes[nodes[i].members[j]].text.Some?
  }

  /** The fields of struct s, by their names. */
  function FieldOccurrences(nodes: seq<Node>, s: nat): seq<Occurrence>
    requires Linked(nodes) && MembersReadable(nodes) && s < |nodes| && nodes[s].kind == Struct
  {
    assert LinkedAt(nodes, s);
    var ms := nodes[s].members;
    seq(|ms|, j requires 0 <= j < |ms| => NameOccurrence(nodes, ms[j]))
  }

  /** The members of enum e. */
  function MemberOccurrences(nodes: seq<Node>, e: nat): seq<Occurrence>
    requires Linked(nodes) && MembersReadable(nodes) && e < |nodes| && nodes[e].kind == Enum
  {
    assert EnumReadable(nodes, e);
    var ms := nodes[e].members;
    seq(|ms|, j requires 0 <= j < |ms| => Occurrence(nodes[ms[j]].text.value, nodes[ms[j]].range))
  }

  // ---------------------------------------------------------------------
  // The pass over the nodes
  // ---------------------------------------------------------------------

  const StructFieldNoun: string := "struct field"
  const EnumMemberNoun: string := "enum member"
  const TypedefNoun: string := "type definition"
  const ErrorNoun: string := "error"
  const MethodNoun: string := "method"

  /** A struct's or an enum's own occurrence list, checked with a fresh map. */
  datatype Scope = Scope(noun: string, occs: seq<Occurrence>)

  /** Everything one pass over the nodes collects: the scopes met on the
      way, in document order, and the four document-wide occurrence lists. */
  datatype Tables = Tables(
    scopes: seq<Scope>,
    typedefs: seq<Occurrence>,
    errors: seq<Occurrence>,
    methods: seq<Occurrence>,
    typerefs: seq<Occurrence>)

  /** The scope a struct or an enum node opens. */
  function ScopeAt(nodes: seq<Node>, i: nat): (sc: Scope)
    requires Linked(nodes) && MembersReadable(nodes) && i < |nodes|
    requires nodes[i].kind == Struct || nodes[i].kind == Enum
    ensures sc.noun == StructFieldNoun || sc.noun == EnumMemberNoun
  {
    if nodes[i].kind == Struct then Scope(StructFieldNoun, FieldOccurrences(nodes, i))
    else Scope(EnumMemberNoun, MemberOccurrences(nodes, i))
  }

  /** r lists the scopes of the structs and enums of nodes[..upto], one
      each, in document order. */
  ghost predicate ListsScopes(nodes: seq<Node>, upto: nat, r: seq<Scope>)
    requires Linked(nodes) && MembersReadable(nodes) && upto <= |nodes|
  {
    var idx := IndicesOfKindsBelow(nodes, {Struct, Enum}, upto);
    |r| == |idx| && forall j :: 0 <= j < |r| ==> r[j] == ScopeAt(nodes, idx[j])
  }

  lemma ScopesStep(nodes: seq<Node>, upto: nat, prior: seq<Scope>)
    requires Linked(nodes) && MembersReadable(nodes) && 0 < upto <= |nodes|
    requires ListsScopes(nodes, upto - 1, prior)
    ensures nodes[upto - 1].kind in {Struct, Enum} ==> ListsScopes(nodes, upto, prior + [ScopeAt(nodes, upto - 1)])
    ensures nodes[upto - 1].kind !in {Struct, Enum} ==> ListsScopes(nodes, upto, prior)
  {
    var before := IndicesOfKindsBelow(nodes, {Struct, Enum}, upto - 1);
    if nodes[upto - 1].kind in {Struct, Enum} {
      assert IndicesOfKindsBelow(nodes, {Struct, Enum}, upto) == before + [upto - 1];
    } else {
      assert IndicesOfKindsBelow(nodes, {Struct, Enum}, upto) == before;
    }
  }

  /** The scopes opened by nodes[..upto], in document order. */
  function ScopesBelow(nodes: seq<Node>, upto: nat): (r: seq<Scope>)
    requires Linked(nodes) && MembersReadable(nodes) && upto <= |nodes|
    ensures ListsScopes(nodes, upto, r)
  {
    if upto == 0 then []
    else
      var prior := ScopesBelow(nodes, upto - 1);
      ScopesStep(nodes, upto, prior);
      if nodes[upto - 1].kind in {Struct, Enum} then prior + [ScopeAt(nodes, upto - 1)] else prior
  }

  /** Everything `unwrap`ped while the nodes are visited can be read. */
  predicate DiagnosticTextsReadable(nodes: seq<Node>)
    requires Linked(nodes)
  {
    && NamesReadable(nodes, Typedef) && NamesReadable(nodes, Error)
    && NamesReadable(nodes, Method) && NamesReadable(nodes, Typeref)
    && MembersReadable(nodes)
  }

  /** The pass over the nodes (diagnostics.rs lines 39-149), minus the
      diagnostics it pushes. */
  function Collect(nodes: seq<Node>): Tables
    requires Linked(nodes) && DiagnosticTextsReadable(nodes)
  {
    Tables(
      ScopesBelow(nodes, |nodes|),
      NameOccurrences(nodes, Typedef),
      NameOccurrences(nodes, Error),
      NameOccurrences(nodes, Method),
      NameOccurrences(nodes, Typeref))
  }

  // ---------------------------------------------------------------------
  // Duplicates within structs and enums
  // ---------------------------------------------------------------------

  /** The block one scope contributes: its own duplicate diagnostics. */
  function ScopeBlock(uri: Uri): Scope -> seq<Diagnostic> {
    (sc: Scope) => DuplicateDiagnostics(sc.noun, sc.occs, uri)
  }

  /** The scoped checks, each scope with its own map, in the order met. */
  function ScopedDiagnostics(scopes: seq<Scope>, uri: Uri): (ds: seq<Diagnostic>)
    ensures forall d :: d in ds ==> d.severity == Some(SevError)
  {
    var ds := Blocks(scopes, ScopeBlock(uri));
    assert forall d :: d in ds ==> d.severity == Some(SevError) by {
      forall d | d in ds ensures d.severity == Some(SevError) {
        BlocksMembers(scopes, ScopeBlock(uri), d);
      }
    }
    ds
  }

  /** Scoping: the scoped checks report nothing exactly when each struct and
      each enum is free of repeats on its own, whatever names different
      structs or enums share. */
  lemma ScopedEmptyIffEachScopeDistinct(scopes: seq<Scope>, uri: Uri)
    ensures ScopedDiagnostics(scopes, uri) == [] <==> forall sc :: sc in scopes ==> DistinctNames(sc.occs)
  {
    BlocksEmpty(scopes, ScopeBlock(uri));
    forall sc | sc in scopes
      ensures ScopeBlock(uri)(sc) == [] <==> DistinctNames(sc.occs)
    {
      NoDuplicatesIffDistinct(sc.noun, sc.occs, uri);
    }
  }

  // ---------------------------------------------------------------------
  // Unknown type references
  // ---------------------------------------------------------------------

  /** The block emitted for one referenced name. */
  function UnknownBlock(defs: map<string, seq<Range>>, refs: map<string, seq<Range>>): string -> seq<Diagnostic> {
    name => if name !in defs then UnknownsOf(name, Lookup(refs, name)) else []
  }

  /** For each referenced name with no typedef of that name, one error per
      reference occurrence. */
  function UnknownDiagnostics(typedefs: seq<Occurrence>, typerefs: seq<Occurrence>): (ds: seq<Diagnostic>)
    ensures forall d :: d in ds ==> d.severity == Some(SevError) && d.related.None?
    ensures forall d :: d in ds ==> exists name :: d.message == UnknownMessage(name)
  {
    var block := UnknownBlock(OccurrenceMap(typedefs), OccurrenceMap(typerefs));
    forall k, d | d in block(k)
      ensures d.severity == Some(SevError) && d.message == UnknownMessage(k) && d.related.None?
    {
    }
    BlocksOfErrors(Keys(typerefs), block, UnknownMessage, true);
    Blocks(Keys(typerefs), block)
  }

  /** Per name: every reference to a name that no typedef declares gets
      exactly one "unknown type" error at its range; one typedef of that name,
      even a duplicated one, silences them all. */
  lemma UnknownReportedPerName(typedefs: seq<Occurrence>, typerefs: seq<Occurrence>, name: string)
    ensures WithMessage(UnknownDiagnostics(typedefs, typerefs), UnknownMessage(name))
         == if |RangesNamed(typedefs, name)| > 0 then [] else UnknownsOf(name, RangesNamed(typerefs, name))
  {
    var block := UnknownBlock(OccurrenceMap(typedefs), OccurrenceMap(typerefs));
    forall k | UnknownMessage(k) == UnknownMessage(name) ensures k == name {
      UnknownMessageInjective(k, name);
    }
    WithMessageOfBlocks(Keys(typerefs), block, UnknownMessage, name);
  }

  // ---------------------------------------------------------------------
  // The whole report
  // ---------------------------------------------------------------------

  /** The word a document-wide duplicate message names its kind with. */
  function Noun(k: Kind): (s: string)
    requires k == Typedef || k == Error || k == Method
    ensures s == TypedefNoun || s == ErrorNoun || s == MethodNoun
  {
    if k == Typedef then TypedefNoun else if k == Error then ErrorNoun else MethodNoun
  }

  /** The document-wide occurrence list of kind k. */
  function Global(t: Tables, k: Kind): seq<Occurrence>
    requires k == Typedef || k == Error || k == Method
  {
    if k == Typedef then t.typedefs else if k == Error then t.errors else t.methods
  }

  /** The generated diagnostics, in the order they are pushed: scoped
      duplicates (during the walk), unknown types, then the type definition,
      error and method duplicates. */
  function Generated(t: Tables, uri: Uri): (ds: seq<Diagnostic>)
    ensures forall d :: d in ds ==> d.severity == Some(SevError)
  {
    ScopedDiagnostics(t.scopes, uri)
    + UnknownDiagnostics(t.typedefs, t.typerefs)
    + DuplicateDiagnostics(TypedefNoun, t.typedefs, uri)
    + DuplicateDiagnostics(ErrorNoun, t.errors, uri)
    + DuplicateDiagnostics(MethodNoun, t.methods, uri)
  }

  /** The last node is an Eol directly below the root. */
  predicate EndsWithNewline(nodes: seq<Node>) {
    |nodes| > 0 && nodes[|nodes| - 1].kind == Eol && nodes[|nodes| - 1].parent == Some(0)
  }

  /** The trailing-newline check: one zero-width error at the start of the
      row past the last, when the document has nodes and does not end with a
      top-level Eol. */
  function TrailingNewline(nodes: seq<Node>, rowCount: nat): (ds: seq<Diagnostic>)
    ensures |ds| == 1 <==> |nodes| > 0 && !EndsWithNewline(nodes)
    ensures |ds| <= 1
    ensures forall d :: d in ds ==>
      d.range.start == d.range.end == Position(rowCount, 0) &&
      d.severity == Some(SevError) && d.message == MissingNewlineMessage && d.related.None?
  {
    if |nodes| > 0 && !EndsWithNewline(nodes) then
      var endOfDocument := Position(rowCount, 0);
      [Diagnostic(Range(endOfDocument, endOfDocument), Some(SevError), MissingNewlineMessage, None)]
    else []
  }

  lemma AppendSlices(a: seq<Diagnostic>, b: seq<Diagnostic>)
    ensures |a + b| == |a| + |b| && (a + b)[..|a|] == a && (a + b)[|a|..] == b
  {
  }

  /** diagnostics: the parse errors, the generated diagnostics, then the
      trailing-newline check. Converting the row count to a u32 is the one
      way the report can fail. */
  function Diagnose(nodes: seq<Node>, parseErrors: seq<Diagnostic>, rowCount: nat, uri: Uri)
    : (r: Result<seq<Diagnostic>>)
    requires Linked(nodes) && DiagnosticTextsReadable(nodes)
    ensures r.Err? <==> |nodes| > 0 && !EndsWithNewline(nodes) && rowCount >= U32Limit
    ensures r.Err? ==> r.reason == RowOverflow
    ensures r.Ok? ==> |r.value| >= |parseErrors| && r.value[..|parseErrors|] == parseErrors
    ensures r.Ok? ==> forall d :: d in r.value[|parseErrors|..] ==> d.severity == Some(SevError)
    ensures r.Ok? ==>
      r.value[|parseErrors|..] == Generated(Collect(nodes), uri) + TrailingNewline(nodes, rowCount)
  {
    var generated := Generated(Collect(nodes), uri);
    var trailing := TrailingNewline(nodes, rowCount);
    if |nodes| > 0 && !EndsWithNewline(nodes) && rowCount >= U32Limit then Err(RowOverflow)
    else
      var r := parseErrors + (generated + trailing);
      AppendSlices(parseErrors, generated + trailing);
      Ok(r)
  }

  // ---------------------------------------------------------------------
  // Telling the groups apart by message
  // ---------------------------------------------------------------------

  /** The first two characters of a duplicate message are its noun's. */
  lemma DupMessageTag(noun: string, name: string)
    requires |noun| >= 2
    ensures |DupMessage(noun, name)| >= 2
    ensures DupMessage(noun, name)[0] == noun[0] && DupMessage(noun, name)[1] == noun[1]
  {
  }

  lemma UnknownMessageTag(name: string)
    ensures |UnknownMessage(name)| >= 2
    ensures UnknownMessage(name)[0] == 'u' && UnknownMessage(name)[1] == 'n'
  {
  }

  /** Two messages whose first two characters differ are different. */
  predicate TagDiffers(msg: string, other: string) {
    |msg| >= 2 && |other| >= 2 && (msg[0] != other[0] || msg[1] != other[1])
  }

  /** Duplicate messages of one noun never equal a message tagged otherwise. */
  lemma NoDupMessage(ds: seq<Diagnostic>, noun: string, msg: string)
    requires TagDiffers(msg, noun)
    requires forall d :: d in ds ==> exists name :: d.message == DupMessage(noun, name)
    ensures WithMessage(ds, msg) == []
  {
    forall d | d in ds ensures d.message != msg {
      var name :| d.message == DupMessage(noun, name);
      DupMessageTag(noun, name);
    }
    WithMessageNone(ds, msg);
  }

  lemma NoUnknownMessage(ds: seq<Diagnostic>, msg: string)
    requires TagDiffers(msg, "un")
    requires forall d :: d in ds ==> exists name :: d.message == UnknownMessage(name)
    ensures WithMessage(ds, msg) == []
  {
    forall d | d in ds ensures d.message != msg {
      var name :| d.message == UnknownMessage(name);
      UnknownMessageTag(name);
    }
    WithMessageNone(ds, msg);
  }

  /** A concatenation of blocks none of which carries message `msg`
      carries none either. */
  lemma {:induction false} BlocksWithoutMessage<K>(keys: seq<K>, block: K -> seq<Diagnostic>, msg: string)
    requires forall k :: k in keys ==> WithMessage(block(k), msg) == []
    ensures WithMessage(Blocks(keys, block), msg) == []
  {
    if |keys| > 0 {
      BlocksWithoutMessage(keys[1..], block, msg);
      WithMessageAppend(block(keys[0]), Blocks(keys[1..], block), msg);
    }
  }

  /** No scoped diagnostic carries a message tagged otherwise than its scope's noun. */
  lemma NoScopedMessage(scopes: seq<Scope>, uri: Uri, msg: string)
    requires forall sc :: sc in scopes ==> TagDiffers(msg, sc.noun)
    ensures WithMessage(ScopedDiagnostics(scopes, uri), msg) == []
  {
    forall sc | sc in scopes ensures WithMessage(ScopeBlock(uri)(sc), msg) == [] {
      NoDupMessage(DuplicateDiagnostics(sc.noun, sc.occs, uri), sc.noun, msg);
    }
    BlocksWithoutMessage(scopes, ScopeBlock(uri), msg);
  }

  /** Filtering a concatenation of five groups filters each group. */
  lemma WithMessageOfParts(a: seq<Diagnostic>, b: seq<Diagnostic>, c: seq<Diagnostic>,
                           d: seq<Diagnostic>, e: seq<Diagnostic>, msg: string)
    ensures WithMessage(a + b + c + d + e, msg) ==
      WithMessage(a, msg) + WithMessage(b, msg) + WithMessage(c, msg) + WithMessage(d, msg) + WithMessage(e, msg)
  {
    WithMessageAppend(a + b + c + d, e, msg);
    WithMessageAppend(a + b + c, d, msg);
    WithMessageAppend(a + b, c, msg);
    WithMessageAppend(a, b, msg);
  }

  /** When four of five groups carry no message `msg`, filtering the
      concatenation yields the remaining group's filter. */
  lemma WithMessageOfOnePart(a: seq<Diagnostic>, b: seq<Diagnostic>, c: seq<Diagnostic>,
                             d: seq<Diagnostic>, e: seq<Diagnostic>, msg: string, which: nat)
    requires which < 5
    requires which != 0 ==> WithMessage(a, msg) == []
    requires which != 1 ==> WithMessage(b, msg) == []
    requires which != 2 ==> WithMessage(c, msg) == []
    requires which != 3 ==> WithMessage(d, msg) == []
    requires which != 4 ==> WithMessage(e, msg) == []
    ensures which == 1 ==> WithMessage(a + b + c + d + e, msg) == WithMessage(b, msg)
    ensures which == 2 ==> WithMessage(a + b + c + d + e, msg) == WithMessage(c, msg)
    ensures which == 3 ==> WithMessage(a + b + c + d + e, msg) == WithMessage(d, msg)
    ensures which == 4 ==> WithMessage(a + b + c + d + e, msg) == WithMessage(e, msg)
  {
    WithMessageOfParts(a, b, c, d, e, msg);
  }

  /** Every scope of a collected document is a struct's or an enum's. */
  lemma CollectedScopeNouns(nodes: seq<Node>)
    requires Linked(nodes) && DiagnosticTextsReadable(nodes)
    ensures forall sc :: sc in Collect(nodes).scopes ==> sc.noun == StructFieldNoun || sc.noun == EnumMemberNoun
  {
  }

  /** The two leading characters of each noun. */
  lemma NounTags()
    ensures |StructFieldNoun| >= 2 && StructFieldNoun[0] == 's' && StructFieldNoun[1] == 't'
    ensures |EnumMemberNoun| >= 2 && EnumMemberNoun[0] == 'e' && EnumMemberNoun[1] == 'n'
    ensures |TypedefNoun| >= 2 && TypedefNoun[0] == 't' && TypedefNoun[1] == 'y'
    ensures |ErrorNoun| >= 2 && ErrorNoun[0] == 'e' && ErrorNoun[1] == 'r'
    ensures |MethodNoun| >= 2 && MethodNoun[0] == 'm' && MethodNoun[1] == 'e'
  {
  }

  /** The scopes a pass over the nodes can produce. */
  predicate StructOrEnumScopes(scopes: seq<Scope>) {
    forall sc :: sc in scopes ==> sc.noun == StructFieldNoun || sc.noun == EnumMemberNoun
  }

  /** A message of one group never carries another group's tag. */
  lemma DupTagDiffers(noun: string, other: string, name: string)
    requires noun in {TypedefNoun, ErrorNoun, MethodNoun, StructFieldNoun, EnumMemberNoun}
    requires other in {TypedefNoun, ErrorNoun, MethodNoun, StructFieldNoun, EnumMemberNoun, "un"}
    requires noun != other
    ensures TagDiffers(DupMessage(noun, name), other)
  {
    NounTags();
    DupMessageTag(noun, name);
  }

  lemma UnknownTagDiffers(other: string, name: string)
    requires other in {TypedefNoun, ErrorNoun, MethodNoun, StructFieldNoun, EnumMemberNoun}
    ensures TagDiffers(UnknownMessage(name), other)
  {
    NounTags();
    UnknownMessageTag(name);
  }

  /** A global duplicate message appears in no scoped and no unknown-type
      diagnostic. */
  lemma DupMessageOutsideScopes(t: Tables, uri: Uri, noun: string, name: string)
    requires StructOrEnumScopes(t.scopes)
    requires noun in {TypedefNoun, ErrorNoun, MethodNoun}
    ensures WithMessage(ScopedDiagnostics(t.scopes, uri), DupMessage(noun, name)) == []
    ensures WithMessage(UnknownDiagnostics(t.typedefs, t.typerefs), DupMessage(noun, name)) == []
  {
    DupTagDiffers(noun, StructFieldNoun, name);
    DupTagDiffers(noun, EnumMemberNoun, name);
    DupTagDiffers(noun, "un", name);
    NoScopedMessage(t.scopes, uri, DupMessage(noun, name));
    NoUnknownMessage(UnknownDiagnostics(t.typedefs, t.typerefs), DupMessage(noun, name));
  }

  /** Document-wide duplicates over collected tables. */
  lemma TablesDuplicatesReported(t: Tables, uri: Uri, k: Kind, name: string)
    requires StructOrEnumScopes(t.scopes)
    requires k == Typedef || k == Error || k == Method
    ensures WithMessage(Generated(t, uri), DupMessage(Noun(k), name))
         == DuplicatesOf(Noun(k), name, RangesNamed(Global(t, k), name), uri)
  {
    var noun := Noun(k);
    var msg := DupMessage(noun, name);
    var scoped := ScopedDiagnostics(t.scopes, uri);
    var unknown := UnknownDiagnostics(t.typedefs, t.typerefs);
    var dt := DuplicateDiagnostics(TypedefNoun, t.typedefs, uri);
    var de := DuplicateDiagnostics(ErrorNoun, t.errors, uri);
    var dm := DuplicateDiagnostics(MethodNoun, t.methods, uri);
    DupMessageOutsideScopes(t, uri, noun, name);
    assert Generated(t, uri) == scoped + unknown + dt + de + dm;
    if k == Typedef {
      DuplicatesReportedPerName(TypedefNoun, t.typedefs, uri, name);
      DupTagDiffers(noun, ErrorNoun, name);
      DupTagDiffers(noun, MethodNoun, name);
      NoDupMessage(de, ErrorNoun, msg);
      NoDupMessage(dm, MethodNoun, msg);
      WithMessageOfOnePart(scoped, unknown, dt, de, dm, msg, 2);
    } else if k == Error {
      DuplicatesReportedPerName(ErrorNoun, t.errors, uri, name);
      DupTagDiffers(noun, TypedefNoun, name);
      DupTagDiffers(noun, MethodNoun, name);
      NoDupMessage(dt, TypedefNoun, msg);
      NoDupMessage(dm, MethodNoun, msg);
      WithMessageOfOnePart(scoped, unknown, dt, de, dm, msg, 3);
    } else {
      DuplicatesReportedPerName(MethodNoun, t.methods, uri, name);
      DupTagDiffers(noun, TypedefNoun, name);
      DupTagDiffers(noun, ErrorNoun, name);
      NoDupMessage(dt, TypedefNoun, msg);
      NoDupMessage(de, ErrorNoun, msg);
      WithMessageOfOnePart(scoped, unknown, dt, de, dm, msg, 4);
    }
  }

  /** Document-wide duplicates: among the generated diagnostics, a type
      definition, error or method name declared n > 1 times draws exactly the
      n diagnostics of DuplicatesOf, and a name declared once draws none. */
  lemma GlobalDuplicatesReported(nodes: seq<Node>, uri: Uri, k: Kind, name: string)
    requires Linked(nodes) && DiagnosticTextsReadable(nodes)
    requires k == Typedef || k == Error || k == Method
    ensures WithMessage(Generated(Collect(nodes), uri), DupMessage(Noun(k), name))
         == DuplicatesOf(Noun(k), name, RangesNamed(NameOccurrences(nodes, k), name), uri)
  {
    CollectedScopeNouns(nodes);
    TablesDuplicatesReported(Collect(nodes), uri, k, name);
  }

  /** An unknown-type message appears in no duplicate diagnostic. */
  lemma UnknownMessageOutsideDuplicates(t: Tables, uri: Uri, name: string)
    requires StructOrEnumScopes(t.scopes)
    ensures WithMessage(ScopedDiagnostics(t.scopes, uri), UnknownMessage(name)) == []
    ensures WithMessage(DuplicateDiagnostics(TypedefNoun, t.typedefs, uri), UnknownMessage(name)) == []
    ensures WithMessage(DuplicateDiagnostics(ErrorNoun, t.errors, uri), UnknownMessage(name)) == []
    ensures WithMessage(DuplicateDiagnostics(MethodNoun, t.methods, uri), UnknownMessage(name)) == []
  {
    var msg := UnknownMessage(name);
    UnknownTagDiffers(StructFieldNoun, name);
    UnknownTagDiffers(EnumMemberNoun, name);
    UnknownTagDiffers(TypedefNoun, name);
    UnknownTagDiffers(ErrorNoun, name);
    UnknownTagDiffers(MethodNoun, name);
    NoScopedMessage(t.scopes, uri, msg);
    NoDupMessage(DuplicateDiagnostics(TypedefNoun, t.typedefs, uri), TypedefNoun, msg);
    NoDupMessage(DuplicateDiagnostics(ErrorNoun, t.errors, uri), ErrorNoun, msg);
    NoDupMessage(DuplicateDiagnostics(MethodNoun, t.methods, uri), MethodNoun, msg);
  }

  /** Unknown types over collected tables. */
  lemma TablesUnknownTypesReported(t: Tables, uri: Uri, name: string)
    requires StructOrEnumScopes(t.scopes)
    ensures WithMessage(Generated(t, uri), UnknownMessage(name))
         == if |RangesNamed(t.typedefs, name)| > 0 then [] else UnknownsOf(name, RangesNamed(t.typerefs, name))
  {
    var msg := UnknownMessage(name);
    var scoped := ScopedDiagnostics(t.scopes, uri);
    var unknown := UnknownDiagnostics(t.typedefs, t.typerefs);
    var dt := DuplicateDiagnostics(TypedefNoun, t.typedefs, uri);
    var de := DuplicateDiagnostics(ErrorNoun, t.errors, uri);
    var dm := DuplicateDiagnostics(MethodNoun, t.methods, uri);
    UnknownMessageOutsideDuplicates(t, uri, name);
    UnknownReportedPerName(t.typedefs, t.typerefs, name);
    assert Generated(t, uri) == scoped + unknown + dt + de + dm;
    WithMessageOfOnePart(scoped, unknown, dt, de, dm, msg, 1);
  }

  /** Document-wide unknown types: among the generated diagnostics, the
      "unknown type `name`" errors are one per reference to `name`, or none
      when some typedef declares `name`. */
  lemma UnknownTypesReported(nodes: seq<Node>, uri: Uri, name: string)
    requires Linked(nodes) && DiagnosticTextsReadable(nodes)
    ensures WithMessage(Generated(Collect(nodes), uri), UnknownMessage(name))
         == if |RangesNamed(NameOccurrences(nodes, Typedef), name)| > 0 then []
            else UnknownsOf(name, RangesNamed(NameOccurrences(nodes, Typeref), name))
  {
    CollectedScopeNouns(nodes);
    TablesUnknownTypesReported(Collect(nodes), uri, name);
  }
}
