/**
  The few `java.lang.String` operations the script selection relies on:
  `contains`, `endsWith`, `indexOf(char)` and `split` on a single-character
  separator, with Java's rule that trailing empty pieces are dropped.
  Each is given a characterisation independent of how it is computed.
 */
module JavaString {

  /** `t` occurs in `s` starting at index `i`. */
  predicate OccursAt(s: string, t: string, i: int) {
    0 <= i && i + |t| <= |s| && s[i..i + |t|] == t
  }

  /** `s.contains(t)`: scans the windows of `s` from the left. */
  function Contains(s: string, t: string): (r: bool)
    ensures r <==> exists i :: OccursAt(s, t, i)
    decreases |s|
  {
    if |s| < |t| then false
    else if s[..|t|] == t then
      assert OccursAt(s, t, 0);
      true
    else
      var r := Contains(s[1..], t);
      assert forall i :: OccursAt(s[1..], t, i) <==> OccursAt(s, t, i + 1) by {
        forall i
          ensures OccursAt(s[1..], t, i) <==> OccursAt(s, t, i + 1)
        {
          if 0 <= i && i + |t| <= |s| - 1 {
            assert s[1..][i..i + |t|] == s[i + 1..i + 1 + |t|];
          }
        }
      }
      assert r ==> exists i :: OccursAt(s, t, i) by {
        if r {
          var i :| OccursAt(s[1..], t, i);
          assert OccursAt(s, t, i + 1);
        }
      }
      assert (exists i :: OccursAt(s, t, i)) ==> r by {
        if exists i :: OccursAt(s, t, i) {
          var i :| OccursAt(s, t, i);
          assert i != 0;
          assert OccursAt(s[1..], t, i - 1);
        }
      }
      r
  }

  /** `s.endsWith(t)`: `s` is some text followed by `t`. */
  function EndsWith(s: string, t: string): (r: bool)
    ensures r <==> exists p :: s == p + t
  {
    if |t| <= |s| && s[|s| - |t|..] == t then
      assert s == s[..|s| - |t|] + t;
      true
    else
      false
  }

  /** `s.indexOf(c)`: the first position of `c` in `s`, or -1 when `c` does not occur. */
  function IndexOf(s: string, c: char): (r: int)
    ensures -1 <= r < |s|
    ensures r == -1 <==> c !in s
    ensures 0 <= r ==> s[r] == c && c !in s[..r]
  {
    if |s| == 0 then -1
    else if s[0] == c then 0
    else
      var k := IndexOf(s[1..], c);
      if k == -1 then -1
      else
        assert s[..k + 1] == [s[0]] + s[1..][..k];
        k + 1
  }

  /** The pieces joined back together with `sep` between neighbours. */
  function Join(parts: seq<string>, sep: char): string
    decreases |parts|
  {
    if |parts| == 0 then ""
    else if |parts| == 1 then parts[0]
    else parts[0] + [sep] + Join(parts[1..], sep)
  }

  /** None of the pieces contains the separator. */
  predicate SeparatorFree(parts: seq<string>, sep: char) {
    forall i :: 0 <= i < |parts| ==> sep !in parts[i]
  }

  /**
    Every piece between separators, empty ones included: what Java's
    `split` computes before it discards trailing empty pieces.
   */
  function SplitAll(s: string, sep: char): (r: seq<string>)
    ensures |r| > 0
    ensures SeparatorFree(r, sep)
    ensures Join(r, sep) == s
    decreases |s|
  {
    var k := IndexOf(s, sep);
    if k == -1 then [s]
    else
      var rest := SplitAll(s[k + 1..], sep);
      var r := [s[..k]] + rest;
      assert r[1..] == rest;
      assert s == s[..k] + [sep] + s[k + 1..];
      r
  }

  /** Removes the empty pieces at the end of `parts`. */
  function DropTrailingEmpty(parts: seq<string>): (r: seq<string>)
    ensures r <= parts
    ensures r == [] || r[|r| - 1] != ""
    ensures forall i :: |r| <= i < |parts| ==> parts[i] == ""
  {
    if |parts| == 0 then []
    else if parts[|parts| - 1] == "" then DropTrailingEmpty(parts[..|parts| - 1])
    else parts
  }

  /**
    `s.split(sep)` with Java's default limit of zero: when `sep` does not
    occur the result is `[s]` (so `""` gives `[""]`); otherwise the pieces
    between separators, with trailing empty pieces dropped (so `";"` gives `[]`).
   */
  function Split(s: string, sep: char): (r: seq<string>)
    ensures SeparatorFree(r, sep)
    ensures sep !in s ==> r == [s]
    ensures sep in s ==> r <= SplitAll(s, sep) && (r == [] || r[|r| - 1] != "")
    ensures sep in s ==> forall i :: |r| <= i < |SplitAll(s, sep)| ==> SplitAll(s, sep)[i] == ""
  {
    if sep !in s then [s] else DropTrailingEmpty(SplitAll(s, sep))
  }

  /** A separator-free piece followed by the separator: the separator is found right after the piece. */
  lemma IndexOfAfterPiece(a: string, sep: char, b: string)
    requires sep !in a
    ensures IndexOf(a + [sep] + b, sep) == |a|
  {
    var s := a + [sep] + b;
    assert s[|a|] == sep;
    assert s[..|a|] == a;
  }

  /** Splitting a join of separator-free pieces recovers the pieces, empty ones included. */
  lemma {:induction false} SplitAllJoin(parts: seq<string>, sep: char)
    requires |parts| > 0
    requires SeparatorFree(parts, sep)
    ensures SplitAll(Join(parts, sep), sep) == parts
    decreases |parts|
  {
    if |parts| == 1 {
      assert Join(parts, sep) == parts[0];
    } else {
      var s := Join(parts, sep);
      var tail := Join(parts[1..], sep);
      assert s == parts[0] + [sep] + tail;
      IndexOfAfterPiece(parts[0], sep, tail);
      var k := |parts[0]|;
      assert s[..k] == parts[0];
      assert s[k + 1..] == tail;
      SplitAllJoin(parts[1..], sep);
      calc {
        SplitAll(s, sep);
        [s[..k]] + SplitAll(s[k + 1..], sep);
        [parts[0]] + parts[1..];
        parts;
      }
    }
  }

  /**
    Java's `split` inverts `Join` when the pieces are separator-free and
    either there is a single piece or the last piece is not empty (a
    trailing empty piece would be dropped).
   */
  lemma SplitJoin(parts: seq<string>, sep: char)
    requires |parts| > 0
    requires SeparatorFree(parts, sep)
    requires |parts| == 1 || parts[|parts| - 1] != ""
    ensures Split(Join(parts, sep), sep) == parts
  {
    var s := Join(parts, sep);
    if |parts| == 1 {
      assert s == parts[0];
    } else {
      assert s == parts[0] + [sep] + Join(parts[1..], sep);
      assert s[|parts[0]|] == sep;
      SplitAllJoin(parts, sep);
    }
  }
}
