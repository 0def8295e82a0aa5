/**
 The list helpers of runorder.go: searching a dependency list, dropping one
 element of it, and the "drop the first occurrence" operation that the two
 together perform inside deleteReference.
 */
module Slices {

  /** The elements of a list, as a set. */
  function Elems<T>(s: seq<T>): set<T>
  {
    set x | x in s
  }

  /** No element occurs twice. */
  predicate NoDuplicates<T(==)>(s: seq<T>)
  {
    forall i, j | 0 <= i < j < |s| :: s[i] != s[j]
  }

  /** indexOf: the first position of `t` in `s`, or -1 when `t` does not occur. */
  method IndexOf(s: seq<string>, t: string) returns (i: int)
    ensures -1 <= i < |s|
    ensures 0 <= i ==> s[i] == t && t !in s[..i]
    ensures i == -1 <==> t !in s
  {
    for j := 0 to |s|
      invariant t !in s[..j]
    {
      if s[j] == t {
        return j;
      }
    }
    assert s[..|s|] == s;
    return -1;
  }

  /** removeAtIndex: `s` without its element at position `i`, the rest kept in order. */
  function RemoveAtIndex(s: seq<string>, i: int): (r: seq<string>)
    requires 0 <= i < |s|
    ensures |r| == |s| - 1
    ensures forall j | 0 <= j < i :: r[j] == s[j]
    ensures forall j | i <= j < |r| :: r[j] == s[j + 1]
    ensures multiset(r) == multiset(s) - multiset{s[i]}
  {
    assert s == s[..i] + [s[i]] + s[i + 1..];
    s[..i] + s[i + 1..]
  }

  /** The list with its first occurrence of `x`, if any, taken out. */
  function RemoveFirst(l: seq<string>, x: string): seq<string>
  {
    if l == [] then []
    else if l[0] == x then l[1..]
    else [l[0]] + RemoveFirst(l[1..], x)
  }

  /**
   Removing at the index that indexOf reports is removing the first
   occurrence: this is what one step of deleteReference's inner loop does.
   */
  lemma {:induction false} RemoveFirstAt(l: seq<string>, x: string, i: int)
    requires 0 <= i < |l| && l[i] == x && x !in l[..i]
    ensures RemoveFirst(l, x) == RemoveAtIndex(l, i)
  {
    if i > 0 {
      assert l[0] in l[..i];
      forall j | 0 <= j < i - 1 ensures l[1..][j] != x {
        assert l[1..][j] == l[..i][j + 1];
      }
      RemoveFirstAt(l[1..], x, i - 1);
      assert RemoveAtIndex(l, i) == [l[0]] + RemoveAtIndex(l[1..], i - 1);
    }
  }

  /** When indexOf reports -1, nothing is removed. */
  lemma {:induction false} RemoveFirstAbsent(l: seq<string>, x: string)
    requires x !in l
    ensures RemoveFirst(l, x) == l
  {
    if l != [] {
      RemoveFirstAbsent(l[1..], x);
    }
  }
}
