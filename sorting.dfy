/** Python's `sorted` on a list of integers, as an insertion sort. */
module Sorting {

  predicate Sorted(s: seq<int>) {
    forall i, j :: 0 <= i < j < |s| ==> s[i] <= s[j]
  }

  predicate StrictlyIncreasing(s: seq<int>) {
    forall i, j :: 0 <= i < j < |s| ==> s[i] < s[j]
  }

  /** `x` placed in front of the first element of `s` that is not smaller than it. */
  function Insert(x: int, s: seq<int>): (r: seq<int>)
    ensures |r| == |s| + 1
    ensures multiset(r) == multiset(s) + multiset{x}
    ensures r[0] == if s == [] || x <= s[0] then x else s[0]
    ensures Sorted(s) ==> Sorted(r)
  {
    if s == [] then [x]
    else if x <= s[0] then [x] + s
    else
      assert s == [s[0]] + s[1..];
      var t := Insert(x, s[1..]);
      assert Sorted(s) ==> s[0] <= t[0] && Sorted(s[1..]);
      [s[0]] + t
  }

  /** The elements of `s` in ascending order. */
  function SortAscending(s: seq<int>): (r: seq<int>)
    ensures |r| == |s|
    ensures multiset(r) == multiset(s)
    ensures Sorted(r)
  {
    if s == [] then []
    else
      assert s == [s[0]] + s[1..];
      Insert(s[0], SortAscending(s[1..]))
  }

  /** Sorting keeps the elements, so any bound on every element still holds afterwards. */
  lemma {:induction false} SortKeepsBounds(s: seq<int>, lo: int, hi: int)
    requires forall i :: 0 <= i < |s| ==> lo <= s[i] < hi
    ensures forall i :: 0 <= i < |s| ==> lo <= SortAscending(s)[i] < hi
  {
    var r := SortAscending(s);
    forall i | 0 <= i < |r| ensures lo <= r[i] < hi {
      assert r[i] in multiset(r);
      assert r[i] in multiset(s);
      var k :| 0 <= k < |s| && s[k] == r[i];
    }
  }

  /** An already ascending list comes back unchanged. */
  lemma {:induction false} SortSortedIsIdentity(s: seq<int>)
    requires Sorted(s)
    ensures SortAscending(s) == s
  {
    if s != [] {
      SortSortedIsIdentity(s[1..]);
      assert s == [s[0]] + s[1..];
    }
  }
}
