/**
  `ORDER BY` and `SELECT DISTINCT … ORDER BY`, as functions on sequences.

  SQL promises only that the rows come out as a permutation of the selected
  rows, in the requested order; rows that tie on the sort key may appear in
  any order. `SortBy` is one such arrangement (an insertion sort), and its
  contract states exactly the SQL promise and nothing about ties.
 */
module Sorting {

  /** `le` is a total preorder: any two values are comparable and the
      relation is transitive. Ties (`le(a, b) && le(b, a)` with `a != b`)
      are allowed. */
  ghost predicate TotalPreorder<T(!new)>(le: (T, T) -> bool) {
    && (forall a, b :: le(a, b) || le(b, a))
    && (forall a, b, c :: le(a, b) && le(b, c) ==> le(a, c))
  }

  /** `lt` is a strict total order: irreflexive, transitive and trichotomous. */
  ghost predicate StrictTotalOrder<T(!new)>(lt: (T, T) -> bool) {
    && (forall a :: !lt(a, a))
    && (forall a, b, c :: lt(a, b) && lt(b, c) ==> lt(a, c))
    && (forall a, b :: a == b || lt(a, b) || lt(b, a))
  }

  /** Every earlier element is `le` every later one. */
  predicate SortedBy<T>(s: seq<T>, le: (T, T) -> bool) {
    forall i, j :: 0 <= i < j < |s| ==> le(s[i], s[j])
  }

  /** Every earlier element is strictly `lt` every later one, so in
      particular no value occurs twice. */
  predicate StrictlySortedBy<T>(s: seq<T>, lt: (T, T) -> bool) {
    forall i, j :: 0 <= i < j < |s| ==> lt(s[i], s[j])
  }

  /** Places `x` into the sorted sequence `s`. */
  function Insert<T(!new)>(x: T, s: seq<T>, le: (T, T) -> bool): (r: seq<T>)
    requires TotalPreorder(le)
    requires SortedBy(s, le)
    ensures multiset(r) == multiset(s) + multiset{x}
    ensures SortedBy(r, le)
    decreases |s|
  {
    if |s| == 0 || le(x, s[0]) then
      HeadBelowAll(x, s, le);
      SortedCons(x, s, le);
      [x] + s
    else
      var tail := Insert(x, s[1..], le);
      assert s == [s[0]] + s[1..];
      assert forall y :: y in tail ==> le(s[0], y) by {
        forall y | y in tail
          ensures le(s[0], y)
        {
          assert y in multiset(tail);
          if y != x {
            assert y in multiset(s[1..]);
            var k :| 0 <= k < |s[1..]| && s[1..][k] == y;
            assert s[k + 1] == y;
          }
        }
      }
      SortedCons(s[0], tail, le);
      [s[0]] + tail
  }

  /** A value `le` the first element of a sorted sequence is `le` all of
      it. */
  lemma HeadBelowAll<T(!new)>(x: T, s: seq<T>, le: (T, T) -> bool)
    requires TotalPreorder(le) && SortedBy(s, le)
    requires |s| > 0 ==> le(x, s[0])
    ensures forall y :: y in s ==> le(x, y)
  {
    forall y | y in s
      ensures le(x, y)
    {
      var k :| 0 <= k < |s| && s[k] == y;
      if k > 0 {
        assert le(s[0], s[k]);
      }
    }
  }

  /** A value `le` every element of a sorted sequence can go in front of
      it. */
  lemma SortedCons<T>(x: T, s: seq<T>, le: (T, T) -> bool)
    requires SortedBy(s, le)
    requires forall y :: y in s ==> le(x, y)
    ensures SortedBy([x] + s, le)
  {
    var r := [x] + s;
    forall i, j | 0 <= i < j < |r|
      ensures le(r[i], r[j])
    {
      assert r[j] == s[j - 1];
      if i > 0 {
        assert r[i] == s[i - 1];
      } else {
        assert s[j - 1] in s;
      }
    }
  }

  /** The rows of `s` rearranged so that they are ordered by `le`: a
      permutation of `s` that is sorted. */
  function SortBy<T(!new)>(s: seq<T>, le: (T, T) -> bool): (r: seq<T>)
    requires TotalPreorder(le)
    ensures multiset(r) == multiset(s)
    ensures |r| == |s|
    ensures SortedBy(r, le)
    decreases |s|
  {
    if |s| == 0 then []
    else
      assert s == [s[0]] + s[1..];
      Insert(s[0], SortBy(s[1..], le), le)
  }

  /** Sorting keeps exactly the elements it was given. */
  lemma SortByMembers<T(!new)>(s: seq<T>, le: (T, T) -> bool)
    requires TotalPreorder(le)
    ensures forall x :: x in SortBy(s, le) <==> x in s
  {
    var r := SortBy(s, le);
    forall x
      ensures x in r <==> x in s
    {
      assert x in r <==> x in multiset(r);
      assert x in s <==> x in multiset(s);
    }
  }

  /** Adds `x` to a strictly sorted sequence unless it is already there. */
  function InsertUnique<T(==,!new)>(x: T, s: seq<T>, lt: (T, T) -> bool): (r: seq<T>)
    requires StrictTotalOrder(lt)
    requires StrictlySortedBy(s, lt)
    ensures StrictlySortedBy(r, lt)
    ensures forall y :: y in r <==> y == x || y in s
    decreases |s|
  {
    if |s| == 0 then [x]
    else if x == s[0] then s
    else if lt(x, s[0]) then
      assert forall j :: 0 < j < |s| ==> lt(x, s[j]);
      [x] + s
    else
      var tail := InsertUnique(x, s[1..], lt);
      assert forall j :: 0 <= j < |tail| ==> lt(s[0], tail[j]) by {
        forall j | 0 <= j < |tail|
          ensures lt(s[0], tail[j])
        {
          assert tail[j] in tail;
          if tail[j] != x {
            var k :| 0 <= k < |s[1..]| && s[1..][k] == tail[j];
            assert s[k + 1] == tail[j];
          }
        }
      }
      assert s == [s[0]] + s[1..];
      [s[0]] + tail
  }

  /** The distinct values of `s`, in strictly increasing order
      (`SELECT DISTINCT x … ORDER BY x`). */
  function SortedDistinct<T(==,!new)>(s: seq<T>, lt: (T, T) -> bool): (r: seq<T>)
    requires StrictTotalOrder(lt)
    ensures StrictlySortedBy(r, lt)
    ensures forall y :: y in r <==> y in s
    decreases |s|
  {
    if |s| == 0 then []
    else
      assert s == [s[0]] + s[1..];
      InsertUnique(s[0], SortedDistinct(s[1..], lt), lt)
  }

  /** Strictly sorted sequences hold no value twice. */
  lemma StrictlySortedDistinct<T(!new)>(s: seq<T>, lt: (T, T) -> bool, i: int, j: int)
    requires StrictTotalOrder(lt)
    requires StrictlySortedBy(s, lt)
    requires 0 <= i < |s| && 0 <= j < |s| && i != j
    ensures s[i] != s[j]
  {
    if i < j {
      assert lt(s[i], s[j]);
    } else {
      assert lt(s[j], s[i]);
    }
  }
}
