/** The few Python string operations the gateway relies on: `split`, `strip('\r\n')`
    and slicing. */
module Strings {
  import opened Wrappers
  import opened Seqs

  /** Python's `str.find` for one character, with `None` for "not found". */
  function IndexOf(s: string, c: char): (r: Option<nat>)
    ensures r.None? <==> c !in s
    ensures r.Some? ==> r.value < |s| && s[r.value] == c && c !in s[..r.value]
  {
    if c in s then Some(FirstIndex(s, c)) else None
  }

  /** Python's `s.split(sep, 1)` when it yields two parts: the text before and the text
      after the first `sep`. `None` when `sep` does not occur (the split has one part). */
  function SplitFirst(s: string, sep: char): (r: Option<(string, string)>)
    ensures r.None? <==> sep !in s
    ensures r.Some? ==> s == r.value.0 + [sep] + r.value.1 && sep !in r.value.0
  {
    match IndexOf(s, sep)
    case None => None
    case Some(i) =>
      assert s == s[..i] + [sep] + s[i + 1..];
      Some((s[..i], s[i + 1..]))
  }

  /** Splitting at the first separator recovers the pieces it was built from. */
  lemma SplitFirstOf(a: string, sep: char, b: string)
    requires sep !in a
    ensures SplitFirst(a + [sep] + b, sep) == Some((a, b))
  {
    var s := a + [sep] + b;
    assert s[|a|] == sep;
    assert s[..|a|] == a;
  }

  /** Python's `s.split(sep)`: every piece between separators, empty pieces included. */
  function Split(s: string, sep: char): (r: seq<string>)
    ensures |r| >= 1
    ensures forall i :: 0 <= i < |r| ==> sep !in r[i]
    decreases |s|
  {
    match SplitFirst(s, sep)
    case None => [s]
    case Some((a, b)) => [a] + Split(b, sep)
  }

  /** Python's `sep.join(parts)`. */
  function JoinWith(parts: seq<string>, sep: char): string
    requires |parts| >= 1
  {
    if |parts| == 1 then parts[0] else parts[0] + [sep] + JoinWith(parts[1..], sep)
  }

  /** Joining the pieces of a split gives back the original text. */
  lemma {:induction false} JoinSplit(s: string, sep: char)
    ensures JoinWith(Split(s, sep), sep) == s
    decreases |s|
  {
    match SplitFirst(s, sep)
    case None =>
    case Some((a, b)) =>
      JoinSplit(b, sep);
  }

  /** Splitting a join of separator-free pieces gives back the pieces. */
  lemma {:induction false} SplitJoin(parts: seq<string>, sep: char)
    requires |parts| >= 1
    requires forall i :: 0 <= i < |parts| ==> sep !in parts[i]
    ensures Split(JoinWith(parts, sep), sep) == parts
  {
    if |parts| > 1 {
      SplitFirstOf(parts[0], sep, JoinWith(parts[1..], sep));
      SplitJoin(parts[1..], sep);
    }
  }

  predicate IsLineEnd(c: char)
  {
    c == '\r' || c == '\n'
  }

  /** Drops the leading line-end characters. */
  function DropLeading(s: string): (r: string)
    ensures |r| <= |s| && r == s[|s| - |r|..]
    ensures forall k :: 0 <= k < |s| - |r| ==> IsLineEnd(s[k])
    ensures |r| == 0 || !IsLineEnd(r[0])
  {
    if |s| > 0 && IsLineEnd(s[0]) then DropLeading(s[1..]) else s
  }

  /** Drops the trailing line-end characters. */
  function DropTrailing(s: string): (r: string)
    ensures |r| <= |s| && r == s[..|r|]
    ensures forall k :: |r| <= k < |s| ==> IsLineEnd(s[k])
    ensures |r| == 0 || !IsLineEnd(r[|r| - 1])
  {
    if |s| > 0 && IsLineEnd(s[|s| - 1]) then DropTrailing(s[..|s| - 1]) else s
  }

  /** Python's `s.strip('\r\n')`. */
  function Strip(s: string): (r: string)
    ensures |r| == 0 || (!IsLineEnd(r[0]) && !IsLineEnd(r[|r| - 1]))
    ensures r == "" <==> forall k :: 0 <= k < |s| ==> IsLineEnd(s[k])
    ensures |s| > 0 && !IsLineEnd(s[0]) && !IsLineEnd(s[|s| - 1]) ==> r == s
  {
    var d := DropLeading(s);
    if d == "" then d
    else
      assert IsLineEnd(s[0]) ==> |d| < |s|;
      assert s[|s| - |d|] == d[0];
      DropTrailing(d)
  }

  /** What `strip` removes: the result is a slice of the line with only CR and LF outside
      it, so together with the contract of `Strip` it is exactly the line less its
      leading and trailing CR/LF. */
  lemma StripIsSlice(s: string)
    ensures exists i, j ::
      && 0 <= i <= j <= |s| && Strip(s) == s[i..j]
      && forall k :: 0 <= k < i || j <= k < |s| ==> IsLineEnd(s[k])
  {
    var d := DropLeading(s);
    var i := |s| - |d|;
    assert d == s[i..];
    assert forall k :: 0 <= k < i ==> IsLineEnd(s[k]);
    if d == "" {
      assert Strip(s) == s[i..i];
    } else {
      var r := DropTrailing(d);
      var j := i + |r|;
      assert Strip(s) == r;
      assert r == d[..|r|];
      assert r == s[i..j];
      forall k | j <= k < |s| ensures IsLineEnd(s[k]) {
        assert s[k] == d[k - i];
      }
    }
  }

  /** A line read with its CR-LF terminator strips back to its content. */
  lemma StripTerminator(x: string)
    requires |x| > 0 && !IsLineEnd(x[0]) && !IsLineEnd(x[|x| - 1])
    ensures Strip(x + "\r\n") == x
  {
    var s := x + "\r\n";
    assert s[0] == x[0] && s[|x| - 1] == x[|x| - 1];
    assert s[|x|] == '\r' && s[|x| + 1] == '\n';
    assert DropLeading(s) == s;
  }

  /** Python's slice `s[:n]` for `n >= 0`. */
  function Take(s: string, n: nat): (r: string)
    ensures |r| == if |s| <= n then |s| else n
    ensures r <= s
  {
    if |s| <= n then s else s[..n]
  }
}
