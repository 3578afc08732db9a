/** The string operations the handlers apply to document text: the
    `trim_start_matches`, `trim_start`, `trim_end`, `trim` and `ends_with`
    of Rust's str, over seq<char>. Whitespace is the ASCII subset of
    Rust's White_Space property. */
module Text {

  /** U+0009..U+000D and U+0020. */
  predicate IsWhitespace(c: char) {
    c == ' ' || ('\t' <= c <= '\r')
  }

  /** r is s[|s| - |r|..], and what s loses in front of it is a maximal run
      of characters equal to c. */
  predicate StripsLeading(s: string, c: char, r: string) {
    |r| <= |s| && (forall k, j :: 0 <= k < |r| && j == |s| - |r| + k ==> r[k] == s[j]) &&
    (forall i :: 0 <= i < |s| - |r| ==> s[i] == c) &&
    (|r| > 0 ==> r[0] != c)
  }

  /** r is s[|s| - |r|..], and what s loses in front of it is a maximal run
      of whitespace. */
  predicate StripsLeadingSpace(s: string, r: string) {
    |r| <= |s| && (forall k, j :: 0 <= k < |r| && j == |s| - |r| + k ==> r[k] == s[j]) &&
    (forall i :: 0 <= i < |s| - |r| ==> IsWhitespace(s[i])) &&
    (|r| > 0 ==> !IsWhitespace(r[0]))
  }

  /** r is s[..|r|], and what s loses behind it is a maximal run of
      whitespace. */
  predicate StripsTrailingSpace(s: string, r: string) {
    |r| <= |s| && (forall k :: 0 <= k < |r| ==> r[k] == s[k]) &&
    (forall i :: |r| <= i < |s| ==> IsWhitespace(s[i])) &&
    (|r| > 0 ==> !IsWhitespace(r[|r| - 1]))
  }

  /** r is s[a..a + |r|] (character by character), with only whitespace
      before and after it in s and no whitespace at either of its own ends. */
  predicate TrimmedAt(s: string, a: int, r: string) {
    0 <= a <= |s| - |r| && (forall k, j :: 0 <= k < |r| && j == a + k ==> r[k] == s[j]) &&
    (forall i :: 0 <= i < a ==> IsWhitespace(s[i])) &&
    (forall i :: a + |r| <= i < |s| ==> IsWhitespace(s[i])) &&
    (|r| > 0 ==> !IsWhitespace(r[0]) && !IsWhitespace(r[|r| - 1]))
  }

  /** `trim_start_matches(c)`: s without its longest prefix of c's. */
  function TrimStartMatches(s: string, c: char): (r: string)
    ensures StripsLeading(s, c, r)
  {
    if |s| > 0 && s[0] == c then TrimStartMatches(s[1..], c) else s
  }

  /** `trim_start`: s without its longest whitespace prefix. */
  function TrimStart(s: string): (r: string)
    ensures StripsLeadingSpace(s, r)
  {
    if |s| > 0 && IsWhitespace(s[0]) then TrimStart(s[1..]) else s
  }

  /** `trim_end`: s without its longest whitespace suffix. */
  function TrimEnd(s: string): (r: string)
    ensures StripsTrailingSpace(s, r)
  {
    if |s| > 0 && IsWhitespace(s[|s| - 1]) then TrimEnd(s[..|s| - 1]) else s
  }

  /** `trim`: whitespace removed at both ends. */
  function Trim(s: string): (r: string)
    ensures TrimmedAt(s, |s| - |TrimStart(s)|, r)
    ensures r == [] <==> forall i :: 0 <= i < |s| ==> IsWhitespace(s[i])
  {
    TrimmedIsMiddle(s, TrimStart(s), TrimEnd(TrimStart(s)));
    TrimEnd(TrimStart(s))
  }

  /** Cutting a maximal whitespace prefix off s, leaving t, and then a
      maximal whitespace suffix off t, leaving r, trims s to r; r is empty
      exactly when s is all whitespace. */
  lemma TrimmedIsMiddle(s: string, t: string, r: string)
    requires StripsLeadingSpace(s, t) && StripsTrailingSpace(t, r)
    ensures TrimmedAt(s, |s| - |t|, r)
    ensures r == [] <==> forall i :: 0 <= i < |s| ==> IsWhitespace(s[i])
  {
    var a := |s| - |t|;
    forall i | a + |r| <= i < |s|
      ensures IsWhitespace(s[i])
    {
      assert s[i] == t[i - a];
    }
    if |t| > 0 {
      assert s[a] == t[0];
    }
  }

  /** Trimming twice is trimming once. */
  lemma TrimIdempotent(s: string)
    ensures Trim(Trim(s)) == Trim(s)
  {
    var r := Trim(s);
    assert TrimStart(r) == r;
    assert TrimEnd(r) == r;
  }

  predicate EndsWith(s: string, suffix: string) {
    |suffix| <= |s| && s[|s| - |suffix|..] == suffix
  }
}
