/** Sequence helpers shared by the string functions and the session model. */
module Seqs {

  /** No element occurs twice. */
  predicate NoDup<T(==)>(s: seq<T>)
  {
    forall i, j :: 0 <= i < j < |s| ==> s[i] != s[j]
  }

  /** Position of the first occurrence of `x` in `s`. */
  function FirstIndex<T(==)>(s: seq<T>, x: T): (i: nat)
    requires x in s
    ensures i < |s| && s[i] == x
    ensures x !in s[..i]
  {
    if s[0] == x then 0
    else
      var k := FirstIndex(s[1..], x);
      assert s[..k + 1] == [s[0]] + s[1..][..k];
      k + 1
  }

  /** Python's `list.remove(x)`: drops the first occurrence of `x`. */
  function RemoveFirst<T(==)>(s: seq<T>, x: T): (r: seq<T>)
    requires x in s
    ensures |r| == |s| - 1
    ensures multiset(r) == multiset(s) - multiset{x}
    ensures forall k :: 0 <= k < |r| ==> r[k] == if k < FirstIndex(s, x) then s[k] else s[k + 1]
  {
    var i := FirstIndex(s, x);
    assert s == s[..i] + [x] + s[i + 1..];
    s[..i] + s[i + 1..]
  }

  /** Python's `if x not in l: l.append(x)`. */
  function AppendIfAbsent<T(==, !new)>(s: seq<T>, x: T): (r: seq<T>)
    ensures s <= r
    ensures forall y :: y in r <==> y in s || y == x
    ensures NoDup(s) ==> NoDup(r)
  {
    if x in s then s else s + [x]
  }
}
