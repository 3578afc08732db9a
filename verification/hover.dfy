/** Hover (src/capabilities/hover.rs): the hovered declaration's source text
    in a fenced code block, followed by the comment lines written directly
    above it. */
module Hover {
  import opened Lsp
  import opened Syntax
  import opened Util
  import opened Text

  // ---------------------------------------------------------------------
  // Markup
  // ---------------------------------------------------------------------

  /** The hover a handler returns: markdown contents and the range shown. */
  datatype HoverInfo = HoverInfo(contents: string, range: Option<Range>)

  const Separator: string := "\n\n---\n"

  function CodeFence(code: string): string {
    "```varlink\n" + code + "\n```"
  }

  /** r is what is left of line after the maximal run of '#'s, which ends at
      h, and then the maximal run of whitespace that follows it. */
  predicate StripsHashesThenSpaces(line: string, h: int, r: string) {
    0 <= h <= |line| - |r| &&
    (forall k, j :: 0 <= k < |r| && j == |line| - |r| + k ==> r[k] == line[j]) &&
    (forall i :: 0 <= i < h ==> line[i] == '#') && (h < |line| ==> line[h] != '#') &&
    (forall i :: h <= i < |line| - |r| ==> IsWhitespace(line[i])) &&
    (|r| > 0 ==> !IsWhitespace(r[0]))
  }

  /** A comment line as shown: leading '#'s removed, then leading whitespace. */
  function DocLine(line: string): (r: string)
    ensures StripsHashesThenSpaces(line, |line| - |TrimStartMatches(line, '#')|, r)
  {
    var unhashed := TrimStartMatches(line, '#');
    var r := TrimStart(unhashed);
    HashesThenSpaces(line, unhashed, r);
    r
  }

  /** Stripping the '#' run off line, leaving unhashed, and then the
      whitespace run off unhashed, leaving r, strips both runs off line. */
  lemma HashesThenSpaces(line: string, unhashed: string, r: string)
    requires StripsLeading(line, '#', unhashed) && StripsLeadingSpace(unhashed, r)
    ensures StripsHashesThenSpaces(line, |line| - |unhashed|, r)
  {
    var h := |line| - |unhashed|;
    forall k, j | 0 <= k < |r| && j == |line| - |r| + k
      ensures r[k] == line[j]
    {
      assert r[k] == unhashed[|unhashed| - |r| + k];
      assert unhashed[|unhashed| - |r| + k] == line[j];
    }
    forall i | h <= i < |line| - |r|
      ensures IsWhitespace(line[i])
    {
      assert unhashed[i - h] == line[i];
    }
    if h < |line| {
      assert unhashed[0] == line[h];
    }
  }

  /** The lines of docstringRev taken from last to first, each shown with
      DocLine and ended by a newline. */
  function DocBlock(docstringRev: seq<string>): string
  {
    if |docstringRev| == 0 then ""
    else DocLine(docstringRev[|docstringRev| - 1]) + "\n" + DocBlock(docstringRev[..|docstringRev| - 1])
  }

  /** The same block read top to bottom: the reference the reversal is checked against. */
  function DocBlockInOrder(lines: seq<string>): string {
    if |lines| == 0 then "" else DocLine(lines[0]) + "\n" + DocBlockInOrder(lines[1..])
  }

  function Reverse<T>(s: seq<T>): (r: seq<T>)
    ensures |r| == |s|
    ensures forall k :: 0 <= k < |s| ==> r[k] == s[|s| - 1 - k]
  {
    if |s| == 0 then [] else [s[|s| - 1]] + Reverse(s[..|s| - 1])
  }

  /** Walking the reversed docstring backwards prints it in source order. */
  lemma {:induction false} DocBlockIsInOrder(docstringRev: seq<string>)
    ensures DocBlock(docstringRev) == DocBlockInOrder(Reverse(docstringRev))
  {
    if |docstringRev| > 0 {
      var front := docstringRev[..|docstringRev| - 1];
      DocBlockIsInOrder(front);
      assert Reverse(docstringRev)[1..] == Reverse(front);
    }
  }

  /** markup: the code fence alone without a docstring; with one, the fence,
      the separator and the comment lines in source order. The range is
      the one given. */
  function Markup(docstringRev: seq<string>, code: string, range: Range): (h: HoverInfo)
    ensures h.range == Some(range)
    ensures |h.contents| >= |CodeFence(code)|
    ensures h.contents[..|CodeFence(code)|] == CodeFence(code)
    ensures h.contents == CodeFence(code) <==> docstringRev == []
    ensures docstringRev != [] ==>
      h.contents[|CodeFence(code)|..] == Separator + DocBlockInOrder(Reverse(docstringRev))
  {
    DocBlockIsInOrder(docstringRev);
    var value := CodeFence(code) + (if docstringRev == [] then "" else Separator + DocBlock(docstringRev));
    assert value[..|CodeFence(code)|] == CodeFence(code);
    HoverInfo(value, Some(range))
  }

  // ---------------------------------------------------------------------
  // Docstring
  // ---------------------------------------------------------------------

  /** The backward scan of get_docstring from index i with line threshold l:
      comments at character 0 are collected (lowering l), a comment
      elsewhere ends the scan, other nodes are passed over, and the scan
      ends below line l or after index 0. The result runs bottom to top. */
  function DocScan(nodes: seq<Node>, i: nat, l: int): (r: seq<nat>)
    requires i < |nodes|
    ensures forall k :: 0 <= k < |r| ==> r[k] <= i
    ensures forall k :: 0 <= k < |r| ==> nodes[r[k]].kind == Comment && nodes[r[k]].range.start.character == 0
    ensures forall a, b :: 0 <= a < b < |r| ==> r[a] > r[b]
    ensures forall k :: 0 <= k < |r| ==> nodes[r[k]].range.start.line >= l - k
    decreases i
  {
    var n := nodes[i];
    if n.range.start.line < l then []
    else if n.kind == Comment && n.range.start.character != 0 then []
    else
      var here := if n.kind == Comment then [i] else [];
      var next := if n.kind == Comment then l - 1 else l;
      if i == 0 then here else here + DocScan(nodes, i - 1, next)
  }

  /** get_docstring for node t: the scan starts at t itself (the partition
      point of ids below t's) with threshold one line above t. */
  function DocstringOf(nodes: seq<Node>, t: nat): (r: seq<nat>)
    requires t < |nodes|
    ensures forall k :: 0 <= k < |r| ==> r[k] <= t && nodes[r[k]].kind == Comment
    ensures forall k :: 0 <= k < |r| ==> nodes[r[k]].range.start.line + 1 + k >= nodes[t].range.start.line
  {
    DocScan(nodes, t, nodes[t].range.start.line - 1)
  }

  /** A comment at character 0 on the line right above a non-comment node
      opens its docstring. */
  lemma DocstringStartsAbove(nodes: seq<Node>, t: nat)
    requires 0 < t < |nodes| && nodes[t].kind != Comment
    requires nodes[t - 1].kind == Comment && nodes[t - 1].range.start.character == 0
    requires nodes[t - 1].range.start.line + 1 == nodes[t].range.start.line
    ensures |DocstringOf(nodes, t)| > 0 && DocstringOf(nodes, t)[0] == t - 1
  {
    var l := nodes[t].range.start.line - 1;
    assert DocScan(nodes, t, l) == DocScan(nodes, t - 1, l);
  }

  /** Non-comment nodes at or above the threshold line are passed over: the
      scan from i continues as the scan from j when every node in (j, i] is
      such a node. */
  lemma {:induction false} ScanPassesOver(nodes: seq<Node>, i: nat, j: nat, l: int)
    requires j <= i < |nodes|
    requires forall k :: j < k <= i ==> nodes[k].kind != Comment && nodes[k].range.start.line >= l
    ensures DocScan(nodes, i, l) == DocScan(nodes, j, l)
    decreases i
  {
    if j < i {
      ScanPassesOver(nodes, i - 1, j, l);
    }
  }

  /** The scan ends with nothing more collected when, after passing over
      non-comments, it meets a node below the threshold line or a comment
      not at character 0. */
  lemma ScanEnds(nodes: seq<Node>, i: nat, s: nat, l: int)
    requires s <= i < |nodes|
    requires forall k :: s < k <= i ==> nodes[k].kind != Comment && nodes[k].range.start.line >= l
    requires nodes[s].range.start.line < l || (nodes[s].kind == Comment && nodes[s].range.start.character != 0)
    ensures DocScan(nodes, i, l) == []
  {
    ScanPassesOver(nodes, i, s, l);
  }

  /** cs is a block of column-0 comments on the lines l, l - 1, ..., read
      bottom to top from position i, with only non-comments between the
      block's comments and between the block and i. */
  predicate CommentBlock(nodes: seq<Node>, i: nat, l: int, cs: seq<nat>) {
    i < |nodes| && |cs| > 0 && cs[0] <= i &&
    (forall a, b :: 0 <= a < b < |cs| ==> cs[a] > cs[b]) &&
    (forall k :: 0 <= k < |cs| ==>
      nodes[cs[k]].kind == Comment && nodes[cs[k]].range.start.character == 0 &&
      nodes[cs[k]].range.start.line == l - k) &&
    (forall j :: cs[|cs| - 1] < j <= i && j !in cs ==> nodes[j].kind != Comment)
  }

  /** What the scan collects above a block cs read with threshold l: the
      scan resumes just above the block's top comment, one line higher per
      comment taken. */
  function ScanAbove(nodes: seq<Node>, cs: seq<nat>, l: int): seq<nat>
    requires |cs| > 0 && cs[|cs| - 1] <= |nodes|
  {
    ScanFrom(nodes, cs[|cs| - 1], l - |cs|)
  }

  /** The scan that resumes just above node top with threshold m. */
  function ScanFrom(nodes: seq<Node>, top: nat, m: int): seq<nat>
    requires top <= |nodes|
  {
    if top == 0 then [] else DocScan(nodes, top - 1, m)
  }

  /** A block of column-0 comments is collected whole and in that order; the
      scan then resumes above the block with the threshold lowered by one
      line per comment. */
  lemma {:induction false} ScanTakesBlock(nodes: seq<Node>, i: nat, l: int, cs: seq<nat>)
    requires Sorted(nodes) && CommentBlock(nodes, i, l, cs)
    ensures DocScan(nodes, i, l) == cs + ScanAbove(nodes, cs, l)
    decreases |cs|, 1
  {
    if |cs| == 1 {
      ScanTakesLastComment(nodes, i, l, cs);
    } else {
      ScanTakesLowestComment(nodes, i, l, cs);
    }
  }

  /** The scan from i reaches the block's lowest comment and collects it. */
  lemma ScanReachesBlock(nodes: seq<Node>, i: nat, l: int, cs: seq<nat>)
    requires Sorted(nodes) && CommentBlock(nodes, i, l, cs)
    ensures DocScan(nodes, i, l) == [cs[0]] + ScanFrom(nodes, cs[0], l - 1)
  {
    BelowBlockPassable(nodes, i, l, cs);
    ScanPassesOver(nodes, i, cs[0], l);
    ScanTakesComment(nodes, cs[0], l);
  }

  /** ScanTakesBlock for a block of one comment. */
  lemma ScanTakesLastComment(nodes: seq<Node>, i: nat, l: int, cs: seq<nat>)
    requires Sorted(nodes) && CommentBlock(nodes, i, l, cs) && |cs| == 1
    ensures DocScan(nodes, i, l) == cs + ScanAbove(nodes, cs, l)
  {
    var c := cs[0];
    ScanReachesBlock(nodes, i, l, cs);
    assert ScanAbove(nodes, cs, l) == ScanFrom(nodes, c, l - 1);
    GlueSingle(DocScan(nodes, i, l), c, ScanFrom(nodes, c, l - 1), ScanAbove(nodes, cs, l), cs);
  }

  /** ScanTakesBlock for a block of several comments: the lowest is taken,
      the rest is a block one line up. */
  lemma {:induction false} ScanTakesLowestComment(nodes: seq<Node>, i: nat, l: int, cs: seq<nat>)
    requires Sorted(nodes) && CommentBlock(nodes, i, l, cs) && |cs| > 1
    ensures DocScan(nodes, i, l) == cs + ScanAbove(nodes, cs, l)
    decreases |cs|, 0
  {
    var c := cs[0];
    var rest := cs[1..];
    ScanReachesBlock(nodes, i, l, cs);
    TakesBlockStep(nodes, i, l, cs);
    ScanTakesBlock(nodes, c - 1, l - 1, rest);
    ScanAboveRest(nodes, cs, l);
    assert ScanFrom(nodes, c, l - 1) == DocScan(nodes, c - 1, l - 1);
    ChainAppend(DocScan(nodes, i, l), c, ScanFrom(nodes, c, l - 1), rest,
      ScanAbove(nodes, rest, l - 1), ScanAbove(nodes, cs, l), cs);
  }

  /** The block's rest, read one line up, resumes the scan where the whole
      block does. */
  lemma ScanAboveRest(nodes: seq<Node>, cs: seq<nat>, l: int)
    requires |cs| > 1 && cs[|cs| - 1] <= |nodes|
    ensures ScanAbove(nodes, cs[1..], l - 1) == ScanAbove(nodes, cs, l)
  {
    assert cs[1..][|cs| - 2] == cs[|cs| - 1];
  }

  /** A column-0 comment at or above the threshold is collected, and the
      scan goes on one line higher. */
  lemma ScanTakesComment(nodes: seq<Node>, c: nat, l: int)
    requires c < |nodes| && nodes[c].kind == Comment && nodes[c].range.start.character == 0
    requires nodes[c].range.start.line >= l
    ensures DocScan(nodes, c, l) == [c] + ScanFrom(nodes, c, l - 1)
  {
    if c == 0 {
      assert [c] + [] == [c];
    }
  }

  /** Between position i and the block's first comment there are only
      non-comments, none of them above the block's line. */
  lemma BelowBlockPassable(nodes: seq<Node>, i: nat, l: int, cs: seq<nat>)
    requires Sorted(nodes) && CommentBlock(nodes, i, l, cs)
    ensures forall k :: cs[0] < k <= i ==> nodes[k].kind != Comment && nodes[k].range.start.line >= l
  {
    forall k | cs[0] < k <= i
      ensures nodes[k].kind != Comment && nodes[k].range.start.line >= l
    {
      assert k !in cs;
      assert PosLe(nodes[cs[0]].range.start, nodes[k].range.start);
    }
  }

  lemma GlueSingle<T>(d: seq<T>, c: T, d1: seq<T>, above: seq<T>, cs: seq<T>)
    requires d == [c] + d1 && d1 == above && |cs| == 1 && cs[0] == c
    ensures d == cs + above
  {
    assert cs == [c];
  }

  lemma ChainAppend<T>(d: seq<T>, c: T, d1: seq<T>, rest: seq<T>, y: seq<T>, above: seq<T>, cs: seq<T>)
    requires d == [c] + d1 && d1 == rest + y && y == above && cs == [c] + rest
    ensures d == cs + above
  {
    assert [c] + (rest + above) == ([c] + rest) + above;
  }

  /** The block without its lowest comment is a block one line up, read from
      just above that comment. */
  lemma TakesBlockStep(nodes: seq<Node>, i: nat, l: int, cs: seq<nat>)
    requires |cs| > 1 && CommentBlock(nodes, i, l, cs)
    ensures cs[0] > 0 && CommentBlock(nodes, cs[0] - 1, l - 1, cs[1..])
    ensures cs == [cs[0]] + cs[1..]
  {
    var rest := cs[1..];
    assert cs[0] > cs[1];
    forall k | 0 <= k < |rest|
      ensures rest[k] == cs[k + 1]
    {
    }
    forall j | rest[|rest| - 1] < j <= cs[0] - 1 && j !in rest
      ensures nodes[j].kind != Comment
    {
      assert j !in cs;
    }
  }

  /** get_docstring of a node on line L above which sit column-0 comments
      cs on lines L - 1, L - 2, ..., with only non-comments between them and
      the node, starts with exactly those comments, nearest first, whatever
      lies above the block. */
  lemma DocstringStartsWithBlock(nodes: seq<Node>, t: nat, cs: seq<nat>)
    requires Sorted(nodes) && t < |nodes| && CommentBlock(nodes, t, nodes[t].range.start.line - 1, cs)
    ensures |DocstringOf(nodes, t)| >= |cs| && DocstringOf(nodes, t)[..|cs|] == cs
  {
    var l := nodes[t].range.start.line - 1;
    ScanTakesBlock(nodes, t, l, cs);
    assert (cs + ScanAbove(nodes, cs, l))[..|cs|] == cs;
  }

  /** get_docstring of a node on line L above which sit M column-0 comments
      on lines L - 1, ..., L - M, with only non-comments between them and
      the node: exactly those M comments, nearest first, when the line above
      the block holds no node reached by the scan. */
  lemma DocstringIsBlock(nodes: seq<Node>, t: nat, cs: seq<nat>)
    requires Sorted(nodes) && t < |nodes| && CommentBlock(nodes, t, nodes[t].range.start.line - 1, cs)
    requires cs[|cs| - 1] == 0 ||
      nodes[cs[|cs| - 1] - 1].range.start.line < nodes[t].range.start.line - 1 - |cs|
    ensures DocstringOf(nodes, t) == cs
  {
    ScanTakesBlock(nodes, t, nodes[t].range.start.line - 1, cs);
  }

  /** get_docstring is empty when, passing over non-comments up from the
      node, the scan first meets a node below the line right above it (a
      comment separated by a blank line, say) or a comment not at
      character 0. */
  lemma DocstringEmpty(nodes: seq<Node>, t: nat, s: nat)
    requires s <= t < |nodes|
    requires forall k :: s < k <= t ==>
      nodes[k].kind != Comment && nodes[k].range.start.line >= nodes[t].range.start.line - 1
    requires nodes[s].range.start.line < nodes[t].range.start.line - 1 ||
      (nodes[s].kind == Comment && nodes[s].range.start.character != 0)
    ensures DocstringOf(nodes, t) == []
  {
    ScanEnds(nodes, t, s, nodes[t].range.start.line - 1);
  }

  /** The collected comments' texts can be read (they are unwrapped). */
  predicate DocstringReadable(nodes: seq<Node>, t: nat)
    requires t < |nodes|
  {
    var ds := DocstringOf(nodes, t);
    forall k :: 0 <= k < |ds| ==> nodes[ds[k]].text.Some?
  }

  function DocstringTexts(nodes: seq<Node>, t: nat): (r: seq<string>)
    requires t < |nodes| && DocstringReadable(nodes, t)
    ensures |r| == |DocstringOf(nodes, t)|
    ensures forall k :: 0 <= k < |r| ==> Some(r[k]) == nodes[DocstringOf(nodes, t)[k]].text
  {
    var ds := DocstringOf(nodes, t);
    seq(|ds|, k requires 0 <= k < |ds| => nodes[ds[k]].text.value)
  }

  // ---------------------------------------------------------------------
  // The unique definition
  // ---------------------------------------------------------------------

  datatype DefSearch = NoDef | UniqueDef(def: nat) | Ambiguous

  /** The scan reaches typedef j's name (and unwraps it) only while fewer
      than two typedefs before j declare `name`. */
  predicate ScanReadable(nodes: seq<Node>, name: string)
    requires Linked(nodes)
  {
    forall j :: 0 <= j < |nodes| && nodes[j].kind == Typedef && nodes[NameOf(nodes, j)].text.None? ==>
      |TypedefsNamedBelow(nodes, name, j)| >= 2
  }

  lemma {:induction false} TypedefsNamedGrow(nodes: seq<Node>, name: string, j: nat, k: nat)
    requires Linked(nodes) && j <= k <= |nodes|
    ensures |TypedefsNamedBelow(nodes, name, j)| <= |TypedefsNamedBelow(nodes, name, k)|
    decreases k - j
  {
    if j < k {
      TypedefsNamedGrow(nodes, name, j, k - 1);
    }
  }

  /** While fewer than two definitions are behind, a typedef's name reads. */
  lemma ScanReadableAt(nodes: seq<Node>, name: string, i: nat)
    requires Linked(nodes) && i < |nodes| && ScanReadable(nodes, name)
    requires nodes[i].kind == Typedef && |TypedefsNamedBelow(nodes, name, i)| < 2
    ensures nodes[NameOf(nodes, i)].text.Some?
  {
  }

  /** One more node extends the definitions found so far by that node
      alone, and only when it declares `name`. */
  lemma TypedefsNamedStep(nodes: seq<Node>, name: string, i: nat, matches: bool)
    requires Linked(nodes) && i < |nodes|
    requires matches == DeclaresType(nodes, i, name)
    ensures matches ==> TypedefsNamedBelow(nodes, name, i + 1) == TypedefsNamedBelow(nodes, name, i) + [i]
    ensures !matches ==> TypedefsNamedBelow(nodes, name, i + 1) == TypedefsNamedBelow(nodes, name, i)
    ensures |TypedefsNamedBelow(nodes, name, i + 1)| <= |TypedefsNamed(nodes, name)|
  {
    TypedefsNamedGrow(nodes, name, i + 1, |nodes|);
  }

  /** The loop's record of the definition met so far, one node further on. */
  lemma FoundStep(nodes: seq<Node>, name: string, i: nat, matches: bool, found: Option<nat>)
    requires Linked(nodes) && i < |nodes|
    requires matches == DeclaresType(nodes, i, name)
    requires found.None? ==> TypedefsNamedBelow(nodes, name, i) == []
    requires found.Some? ==> TypedefsNamedBelow(nodes, name, i) == [found.value]
    ensures matches && found.None? ==> TypedefsNamedBelow(nodes, name, i + 1) == [i]
    ensures !matches && found.None? ==> TypedefsNamedBelow(nodes, name, i + 1) == []
    ensures !matches && found.Some? ==> TypedefsNamedBelow(nodes, name, i + 1) == [found.value]
    ensures matches && found.Some? ==> |TypedefsNamedBelow(nodes, name, i + 1)| == 2
    ensures |TypedefsNamedBelow(nodes, name, i + 1)| <= |TypedefsNamed(nodes, name)|
  {
    TypedefsNamedStep(nodes, name, i, matches);
    if matches && found.None? {
      assert [] + [i] == [i];
    }
  }

  /** Whether typedef i declares `name`, reading its name text as the loop
      does. */
  function MatchesAt(nodes: seq<Node>, name: string, i: nat): (b: bool)
    requires Linked(nodes) && i < |nodes| && ScanReadable(nodes, name)
    requires |TypedefsNamedBelow(nodes, name, i)| < 2
    ensures b == DeclaresType(nodes, i, name)
  {
    if nodes[i].kind == Typedef then
      ScanReadableAt(nodes, name, i);
      nodes[NameOf(nodes, i)].text.value == name
    else false
  }

  /** r reports the definitions defs: none, the only one, or ambiguity
      exactly when there are zero, one, or two or more. */
  predicate Describes(r: DefSearch, defs: seq<nat>) {
    (r == NoDef <==> defs == []) &&
    (r.UniqueDef? <==> |defs| == 1) &&
    (r.UniqueDef? ==> defs == [r.def]) &&
    (r == Ambiguous <==> |defs| >= 2)
  }

  /** At the end of the loop the definitions met so far are all there are. */
  lemma DescribesFound(found: Option<nat>, defs: seq<nat>)
    requires found.None? ==> defs == []
    requires found.Some? ==> defs == [found.value]
    ensures Describes(if found.None? then NoDef else UniqueDef(found.value), defs)
  {
  }

  /** A second definition makes the search ambiguous. */
  lemma DescribesSecond(nodes: seq<Node>, name: string, i: nat)
    requires Linked(nodes) && i < |nodes|
    requires |TypedefsNamedBelow(nodes, name, i + 1)| == 2
    ensures Describes(Ambiguous, TypedefsNamed(nodes, name))
  {
    TypedefsNamedGrow(nodes, name, i + 1, |nodes|);
  }

  /** The for loop of hover from index i, having met the definition `found`
      (if any): a second definition ends the search. */
  function FindDefFrom(nodes: seq<Node>, name: string, i: nat, found: Option<nat>): (r: DefSearch)
    requires Linked(nodes) && i <= |nodes| && ScanReadable(nodes, name)
    requires found.None? ==> TypedefsNamedBelow(nodes, name, i) == []
    requires found.Some? ==> TypedefsNamedBelow(nodes, name, i) == [found.value]
    decreases |nodes| - i
  {
    if i == |nodes| then
      if found.None? then NoDef else UniqueDef(found.value)
    else
      var matches := MatchesAt(nodes, name, i);
      FoundStep(nodes, name, i, matches, found);
      if matches then
        if found.Some? then Ambiguous
        else FindDefFrom(nodes, name, i + 1, Some(i))
      else FindDefFrom(nodes, name, i + 1, found)
  }

  /** Whatever definition the loop has met before i, it ends reporting the
      definitions of `name` in the whole document. */
  lemma {:induction false} FindDefFromDescribes(nodes: seq<Node>, name: string, i: nat, found: Option<nat>)
    requires Linked(nodes) && i <= |nodes| && ScanReadable(nodes, name)
    requires found.None? ==> TypedefsNamedBelow(nodes, name, i) == []
    requires found.Some? ==> TypedefsNamedBelow(nodes, name, i) == [found.value]
    ensures Describes(FindDefFrom(nodes, name, i, found), TypedefsNamed(nodes, name))
    decreases |nodes| - i
  {
    var r := FindDefFrom(nodes, name, i, found);
    if i == |nodes| {
      assert r == if found.None? then NoDef else UniqueDef(found.value);
      DescribesFound(found, TypedefsNamed(nodes, name));
    } else {
      var matches := MatchesAt(nodes, name, i);
      FoundStep(nodes, name, i, matches, found);
      if matches && found.Some? {
        assert r == Ambiguous;
        DescribesSecond(nodes, name, i);
      } else if matches {
        assert r == FindDefFrom(nodes, name, i + 1, Some(i));
        FindDefFromDescribes(nodes, name, i + 1, Some(i));
      } else {
        assert r == FindDefFrom(nodes, name, i + 1, found);
        FindDefFromDescribes(nodes, name, i + 1, found);
      }
    }
  }

  function FindDef(nodes: seq<Node>, name: string): (r: DefSearch)
    requires Linked(nodes) && ScanReadable(nodes, name)
    ensures r.UniqueDef? <==> |TypedefsNamed(nodes, name)| == 1
    ensures r.UniqueDef? ==> TypedefsNamed(nodes, name) == [r.def]
  {
    FindDefFromDescribes(nodes, name, 0, None);
    FindDefFrom(nodes, name, 0, None)
  }

  // ---------------------------------------------------------------------
  // hover
  // ---------------------------------------------------------------------

  /** What hover unwraps on identifier l: its parent; for a type reference,
      the typedef names the scan reaches and the one definition's
      docstring; otherwise the parent's docstring. */
  predicate HoverReadable(nodes: seq<Node>, l: nat)
    requires ParentsPrecede(nodes) && Linked(nodes) && l < |nodes|
  {
    IsIdentifier(nodes[l].kind) ==>
      nodes[l].parent.Some? &&
      var p := nodes[l].parent.value;
      if nodes[p].kind == Typeref then
        nodes[p].text.Some? ==>
          ScanReadable(nodes, nodes[p].text.value) &&
          var defs := TypedefsNamed(nodes, nodes[p].text.value);
          |defs| == 1 ==> DocstringReadable(nodes, defs[0])
      else DocstringReadable(nodes, p)
  }

  /** The hover of node t: its docstring, its text and its range. */
  function HoverOf(nodes: seq<Node>, t: nat): (r: Result<HoverInfo>)
    requires t < |nodes| && DocstringReadable(nodes, t)
    ensures r.Err? <==> nodes[t].text.None?
    ensures r.Err? ==> r.reason == UnreadableText(t)
    ensures r.Ok? ==> r.value.range == Some(nodes[t].range)
    ensures r.Ok? ==> r.value == Markup(DocstringTexts(nodes, t), nodes[t].text.value, nodes[t].range)
  {
    var doc := DocstringTexts(nodes, t);
    if nodes[t].text.None? then Err(UnreadableText(t))
    else Ok(Markup(doc, nodes[t].text.value, nodes[t].range))
  }

  /** hover at pos, where a leaf must exist. Off identifiers there is no
      hover; on a type reference the hover is that of its one definition,
      and none when the name has no definition or several; on any other
      identifier it is the hover of the enclosing declaration. */
  function Hover(nodes: seq<Node>, pos: Position): (r: Result<Option<HoverInfo>>)
    requires Sorted(nodes) && ParentsPrecede(nodes) && Linked(nodes)
    requires LeafAt(nodes, pos).Some?
    requires HoverReadable(nodes, LeafAt(nodes, pos).value)
    ensures !IsIdentifier(nodes[LeafAt(nodes, pos).value].kind) ==> r == Ok(None)
    ensures IsIdentifier(nodes[LeafAt(nodes, pos).value].kind) ==>
      var p := nodes[LeafAt(nodes, pos).value].parent.value;
      if nodes[p].kind != Typeref then
        r == (match HoverOf(nodes, p) case Ok(h) => Ok(Some(h)) case Err(e) => Err(e))
      else if nodes[p].text.None? then
        r == Err(UnreadableText(p))
      else
        var defs := TypedefsNamed(nodes, nodes[p].text.value);
        if |defs| != 1 then r == Ok(None)
        else r == (match HoverOf(nodes, defs[0]) case Ok(h) => Ok(Some(h)) case Err(e) => Err(e))
  {
    var l := LeafAt(nodes, pos).value;
    if !IsIdentifier(nodes[l].kind) then Ok(None)
    else
      var p := nodes[l].parent.value;
      if nodes[p].kind == Typeref then
        if nodes[p].text.None? then Err(UnreadableText(p))
        else
          match FindDef(nodes, nodes[p].text.value)
          case UniqueDef(t) =>
            (match HoverOf(nodes, t) case Ok(h) => Ok(Some(h)) case Err(e) => Err(e))
          case _ => Ok(None)
      else
        match HoverOf(nodes, p)
        case Ok(h) => Ok(Some(h))
        case Err(e) => Err(e)
  }
}
