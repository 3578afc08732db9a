/** Sequence helpers shared by the handlers that build one list out of
    several (a token list per node, a symbol list per file). */
module Seqs {
  /** The concatenation of ss, in order. */
  function Flatten<T>(ss: seq<seq<T>>): seq<T> {
    if |ss| == 0 then [] else Flatten(ss[..|ss| - 1]) + ss[|ss| - 1]
  }

  /** x is in Flatten(ss) exactly when it is in one of the parts. */
  lemma {:induction false} FlattenHas<T>(ss: seq<seq<T>>, x: T)
    ensures x in Flatten(ss) <==> exists i :: 0 <= i < |ss| && x in ss[i]
  {
    if |ss| > 0 {
      var front := ss[..|ss| - 1];
      FlattenHas(front, x);
      assert Flatten(ss) == Flatten(front) + ss[|ss| - 1];
      if x in Flatten(front) {
        var i :| 0 <= i < |front| && x in front[i];
        assert ss[i] == front[i];
      }
    }
  }

  /** Flattening a prefix of the parts gives a prefix of the whole. */
  lemma {:induction false} FlattenPrefix<T>(ss: seq<seq<T>>, j: nat)
    requires j <= |ss|
    ensures Flatten(ss[..j]) <= Flatten(ss)
    decreases |ss|
  {
    if j < |ss| {
      var front := ss[..|ss| - 1];
      FlattenPrefix(front, j);
      assert front[..j] == ss[..j];
      var a := Flatten(ss[..j]);
      var b := Flatten(front);
      assert Flatten(ss) == b + ss[|ss| - 1];
      assert a == b[..|a|];
      assert (b + ss[|ss| - 1])[..|a|] == b[..|a|];
    } else {
      assert ss[..j] == ss;
    }
  }

  /** Part i sits in the concatenation right after the parts before it. */
  lemma FlattenAt<T>(ss: seq<seq<T>>, i: nat)
    requires i < |ss|
    ensures var start := |Flatten(ss[..i])|;
      start + |ss[i]| <= |Flatten(ss)| && Flatten(ss)[start..start + |ss[i]|] == ss[i]
  {
    FlattenPrefix(ss, i + 1);
    var front := ss[..i + 1];
    assert front[..i] == ss[..i];
    assert Flatten(front) == Flatten(ss[..i]) + ss[i];
  }

  /** Element k of part i sits in the concatenation at the length of the
      parts before it, plus k. */
  lemma FlattenIndex<T>(ss: seq<seq<T>>, i: nat, k: nat)
    requires i < |ss| && k < |ss[i]|
    ensures |Flatten(ss[..i])| + k < |Flatten(ss)|
    ensures Flatten(ss)[|Flatten(ss[..i])| + k] == ss[i][k]
  {
    FlattenAt(ss, i);
    var start := |Flatten(ss[..i])|;
    assert Flatten(ss)[start..start + |ss[i]|][k] == ss[i][k];
  }

  /** FlattenAt for a flattened list ws already in hand and a known element
      list f at position i. */
  lemma FlattenAtOf<T>(ss: seq<seq<T>>, ws: seq<T>, i: nat, f: seq<T>)
    requires ws == Flatten(ss) && i < |ss| && ss[i] == f
    ensures |Flatten(ss[..i])| + |f| <= |ws| && ws[|Flatten(ss[..i])|..|Flatten(ss[..i])| + |f|] == f
  {
    FlattenAt(ss, i);
  }
}
