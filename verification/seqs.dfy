/**
  Order-preserving filtering, counting and summing over sequences, the
  building blocks of every `WHERE`, `COUNT(*)`, `SUM` and `Array.filter` in the
  system, with the facts the rest of the model needs about them: how they
  split over concatenation and that counts and sums do not depend on order.
 */
module Seqs {

  import opened Base

  /** `a` can be obtained from `b` by deleting elements, without reordering. */
  predicate Subsequence<T(==)>(a: seq<T>, b: seq<T>)
    decreases |b|
  {
    if |a| == 0 then true
    else if |b| == 0 then false
    else if a[0] == b[0] then Subsequence(a[1..], b[1..])
    else Subsequence(a, b[1..])
  }

  /** Every sequence is a subsequence of itself. */
  lemma {:induction false} SubsequenceRefl<T>(s: seq<T>)
    ensures Subsequence(s, s)
    decreases |s|
  {
    if |s| > 0 {
      SubsequenceRefl(s[1..]);
    }
  }

  /** The elements of `s` that satisfy `p`, in their original order
      (`Array.prototype.filter`, or a `WHERE` clause on a heap scan). */
  function Filter<T(==,!new)>(p: T -> bool, s: seq<T>): (r: seq<T>)
    ensures |r| <= |s|
    ensures forall x :: x in r <==> x in s && p(x)
    ensures Subsequence(r, s)
    ensures (exists x :: x in s && !p(x)) ==> |r| < |s|
    decreases |s|
  {
    if |s| == 0 then []
    else if p(s[0]) then [s[0]] + Filter(p, s[1..])
    else Filter(p, s[1..])
  }

  /** Filtering with a predicate that every element satisfies changes nothing. */
  lemma {:induction false} FilterAll<T(!new)>(p: T -> bool, s: seq<T>)
    requires forall x :: x in s ==> p(x)
    ensures Filter(p, s) == s
    decreases |s|
  {
    if |s| > 0 {
      assert p(s[0]);
      FilterAll(p, s[1..]);
    }
  }

  /** Filtering splits over concatenation. */
  lemma {:induction false} FilterConcat<T(!new)>(p: T -> bool, a: seq<T>, b: seq<T>)
    ensures Filter(p, a + b) == Filter(p, a) + Filter(p, b)
    decreases |a|
  {
    if |a| == 0 {
      assert a + b == b;
    } else {
      assert (a + b)[1..] == a[1..] + b;
      FilterConcat(p, a[1..], b);
    }
  }

  /** Filtering is idempotent. */
  lemma {:induction false} FilterTwice<T(!new)>(p: T -> bool, s: seq<T>)
    ensures Filter(p, Filter(p, s)) == Filter(p, s)
  {
    FilterAll(p, Filter(p, s));
  }

  /** Number of elements of `s` that satisfy `p`. */
  function Count<T(==,!new)>(p: T -> bool, s: seq<T>): (n: nat)
    ensures n <= |s|
    ensures n == 0 <==> forall x :: x in s ==> !p(x)
    decreases |s|
  {
    if |s| == 0 then 0
    else (if p(s[0]) then 1 else 0) + Count(p, s[1..])
  }

  /** A filter keeps exactly as many elements as it counts. */
  lemma {:induction false} FilterLength<T(!new)>(p: T -> bool, s: seq<T>)
    ensures |Filter(p, s)| == Count(p, s)
    decreases |s|
  {
    if |s| > 0 {
      FilterLength(p, s[1..]);
    }
  }

  lemma {:induction false} CountConcat<T(!new)>(p: T -> bool, a: seq<T>, b: seq<T>)
    ensures Count(p, a + b) == Count(p, a) + Count(p, b)
    decreases |a|
  {
    if |a| == 0 {
      assert a + b == b;
    } else {
      assert (a + b)[1..] == a[1..] + b;
      CountConcat(p, a[1..], b);
    }
  }

  /** Removing the element at `i` lowers the count by that element's share. */
  lemma {:induction false} CountRemove<T(!new)>(p: T -> bool, s: seq<T>, i: int)
    requires 0 <= i < |s|
    ensures Count(p, s) == Count(p, s[..i] + s[i + 1..]) + (if p(s[i]) then 1 else 0)
  {
    assert s == s[..i] + [s[i]] + s[i + 1..];
    CountConcat(p, s[..i] + [s[i]], s[i + 1..]);
    CountConcat(p, s[..i], [s[i]]);
    CountConcat(p, s[..i], s[i + 1..]);
  }

  /** Counting does not depend on the order of the elements. */
  lemma {:induction false} CountPermutation<T(!new)>(p: T -> bool, a: seq<T>, b: seq<T>)
    requires multiset(a) == multiset(b)
    ensures Count(p, a) == Count(p, b)
    decreases |a|
  {
    if |a| == 0 {
      assert |b| == |multiset(b)| == 0;
    } else {
      var i := RemovalIndex(a, b);
      CountPermutation(p, a[1..], b[..i] + b[i + 1..]);
      CountRemove(p, b, i);
    }
  }

  /** Where the head of `a` sits in a permutation `b` of it; the rest of `a`
      is then a permutation of `b` without that position. */
  lemma RemovalIndex<T>(a: seq<T>, b: seq<T>) returns (i: int)
    requires |a| > 0 && multiset(a) == multiset(b)
    ensures 0 <= i < |b| && b[i] == a[0]
    ensures multiset(a[1..]) == multiset(b[..i] + b[i + 1..])
  {
    assert a[0] in multiset(b);
    i :| 0 <= i < |b| && b[i] == a[0];
    assert b == b[..i] + [b[i]] + b[i + 1..];
    assert a == [a[0]] + a[1..];
    assert multiset(a) == multiset{a[0]} + multiset(a[1..]);
    var rest := b[..i] + b[i + 1..];
    assert multiset(b) == multiset(rest) + multiset{a[0]};
    forall x
      ensures multiset(a[1..])[x] == multiset(rest)[x]
    {
      assert multiset(a)[x] == multiset{a[0]}[x] + multiset(a[1..])[x];
      assert multiset(b)[x] == multiset(rest)[x] + multiset{a[0]}[x];
    }
    assert multiset(a[1..]) == multiset(rest);
  }

  /** Sum of `f` over the elements of `s`. */
  function Sum<T>(f: T -> int, s: seq<T>): int
    decreases |s|
  {
    if |s| == 0 then 0 else f(s[0]) + Sum(f, s[1..])
  }

  lemma {:induction false} SumConcat<T>(f: T -> int, a: seq<T>, b: seq<T>)
    ensures Sum(f, a + b) == Sum(f, a) + Sum(f, b)
    decreases |a|
  {
    if |a| == 0 {
      assert a + b == b;
    } else {
      assert (a + b)[1..] == a[1..] + b;
      SumConcat(f, a[1..], b);
    }
  }

  /** A sum of non-negative terms is non-negative. */
  lemma {:induction false} SumNonNegative<T>(f: T -> int, s: seq<T>)
    requires forall x :: x in s ==> f(x) >= 0
    ensures Sum(f, s) >= 0
    decreases |s|
  {
    if |s| > 0 {
      SumNonNegative(f, s[1..]);
    }
  }

  lemma {:induction false} SumRemove<T>(f: T -> int, s: seq<T>, i: int)
    requires 0 <= i < |s|
    ensures Sum(f, s) == Sum(f, s[..i] + s[i + 1..]) + f(s[i])
  {
    var before, x, after := s[..i], s[i], s[i + 1..];
    assert s == (before + [x]) + after;
    assert Sum(f, [x]) == f(x) by {
      assert [x][1..] == [];
    }
    SumConcat(f, before + [x], after);
    SumConcat(f, before, [x]);
    SumConcat(f, before, after);
  }

  /** Summing does not depend on the order of the elements. */
  lemma {:induction false} SumPermutation<T>(f: T -> int, a: seq<T>, b: seq<T>)
    requires multiset(a) == multiset(b)
    ensures Sum(f, a) == Sum(f, b)
    decreases |a|
  {
    if |a| == 0 {
      assert |b| == |multiset(b)| == 0;
    } else {
      var i := RemovalIndex(a, b);
      SumPermutation(f, a[1..], b[..i] + b[i + 1..]);
      SumRemove(f, b, i);
    }
  }

  /** The first element of `s` that satisfies `p`
      (`Array.prototype.find`), if any. */
  function Find<T(==,!new)>(p: T -> bool, s: seq<T>): (r: Option<T>)
    ensures r.Some? <==> exists x :: x in s && p(x)
    ensures r.Some? ==> r.value in s && p(r.value)
    ensures r.Some? ==> exists i :: 0 <= i < |s| && s[i] == r.value && forall j :: 0 <= j < i ==> !p(s[j])
    decreases |s|
  {
    if |s| == 0 then None
    else if p(s[0]) then Some(s[0])
    else
      var r := Find(p, s[1..]);
      assert r.Some? ==> exists i :: 0 <= i < |s| && s[i] == r.value && forall j :: 0 <= j < i ==> !p(s[j]) by {
        if r.Some? {
          var i :| 0 <= i < |s[1..]| && s[1..][i] == r.value && forall j :: 0 <= j < i ==> !p(s[1..][j]);
          assert s[i + 1] == r.value;
          assert forall j :: 0 <= j < i + 1 ==> !p(s[j]) by {
            forall j | 0 <= j < i + 1 ensures !p(s[j]) {
              if j > 0 { assert s[j] == s[1..][j - 1]; }
            }
          }
        }
      }
      r
  }

  /** Filtering by a stronger predicate after a weaker one is filtering by
      the stronger one alone. */
  lemma {:induction false} FilterNarrow<T(!new)>(p: T -> bool, q: T -> bool, s: seq<T>)
    requires forall x :: p(x) ==> q(x)
    ensures Filter(p, Filter(q, s)) == Filter(p, s)
    decreases |s|
  {
    if |s| > 0 {
      FilterNarrow(p, q, s[1..]);
    }
  }

  /** Filtering by a predicate no element of `s` satisfies yields nothing. */
  lemma {:induction false} FilterNone<T(!new)>(p: T -> bool, s: seq<T>)
    requires forall x :: x in s ==> !p(x)
    ensures Filter(p, s) == []
    decreases |s|
  {
    if |s| > 0 {
      FilterNone(p, s[1..]);
    }
  }

  /** The complement of a predicate, as a named function so that every use
      denotes the same value. */
  function Not<T>(q: T -> bool): T -> bool {
    x => !q(x)
  }

  /** Every element is counted on exactly one side of a split by `q`. */
  lemma {:induction false} CountSplit<T(!new)>(p: T -> bool, q: T -> bool, s: seq<T>)
    ensures Count(p, s) == Count(p, Filter(q, s)) + Count(p, Filter(Not(q), s))
    decreases |s|
  {
    if |s| > 0 {
      CountSplit(p, q, s[1..]);
    }
  }

  /** A split by `q` sends every element to exactly one side, as often as
      it occurs. */
  lemma {:induction false} FilterSplitMultiset<T(!new)>(q: T -> bool, s: seq<T>)
    ensures multiset(Filter(q, s)) + multiset(Filter(Not(q), s)) == multiset(s)
    decreases |s|
  {
    if |s| > 0 {
      var t := s[1..];
      var a, b := Filter(q, t), Filter(Not(q), t);
      FilterSplitMultiset(q, t);
      assert multiset(s) == multiset{s[0]} + multiset(t) by {
        assert s == [s[0]] + t;
      }
      if q(s[0]) {
        assert Filter(q, s) == [s[0]] + a;
        assert Filter(Not(q), s) == b;
        assert multiset([s[0]] + a) == multiset{s[0]} + multiset(a);
      } else {
        assert Filter(q, s) == a;
        assert Filter(Not(q), s) == [s[0]] + b;
        assert multiset([s[0]] + b) == multiset{s[0]} + multiset(b);
      }
    }
  }

  /** Every element satisfies either `q` or its complement. */
  lemma {:induction false} CountComplement<T(!new)>(q: T -> bool, s: seq<T>)
    ensures Count(q, s) + Count(Not(q), s) == |s|
    decreases |s|
  {
    if |s| > 0 {
      CountComplement(q, s[1..]);
    }
  }

  /** Two different positions satisfying `p` make the count at least two. */
  lemma CountAtLeastTwo<T(!new)>(p: T -> bool, s: seq<T>, i: int, j: int)
    requires 0 <= i < j < |s| && p(s[i]) && p(s[j])
    ensures Count(p, s) >= 2
  {
    assert s == s[..j] + s[j..];
    CountConcat(p, s[..j], s[j..]);
    assert s[..j][i] == s[i] && s[j..][0] == s[j];
  }

  /** `f` applied to every element (`Array.prototype.map`). */
  function Map<T, U>(f: T -> U, s: seq<T>): (r: seq<U>)
    ensures |r| == |s|
    ensures forall i :: 0 <= i < |s| ==> r[i] == f(s[i])
  {
    seq(|s|, i requires 0 <= i < |s| => f(s[i]))
  }

  /** Mapping splits over concatenation. */
  lemma MapConcat<T, U>(f: T -> U, a: seq<T>, b: seq<T>)
    ensures Map(f, a + b) == Map(f, a) + Map(f, b)
  {
  }

  /** The values of a mapped sequence are exactly the images of its elements. */
  lemma MapMembers<T, U>(f: T -> U, s: seq<T>)
    ensures forall y :: y in Map(f, s) <==> exists x :: x in s && f(x) == y
  {
    var r := Map(f, s);
    forall y
      ensures y in r <==> exists x :: x in s && f(x) == y
    {
      if y in r {
        var i :| 0 <= i < |r| && r[i] == y;
        assert s[i] in s && f(s[i]) == y;
      }
      if exists x :: x in s && f(x) == y {
        var x :| x in s && f(x) == y;
        var i :| 0 <= i < |s| && s[i] == x;
        assert r[i] == y;
      }
    }
  }

  /** No value occurs twice in `s`. */
  predicate Distinct<T(==)>(s: seq<T>) {
    forall i, j :: 0 <= i < j < |s| ==> s[i] != s[j]
  }

  /** A sequence holds no value twice exactly when its multiset holds every
      value at most once. */
  lemma {:induction false} DistinctMultiset<T>(s: seq<T>)
    ensures Distinct(s) <==> forall x :: multiset(s)[x] <= 1
    decreases |s|
  {
    if |s| > 0 {
      var t := s[1..];
      DistinctMultiset(t);
      assert s == [s[0]] + t;
      assert forall x :: multiset(s)[x] == multiset([s[0]])[x] + multiset(t)[x];
      if Distinct(s) {
        assert Distinct(t) by {
          forall i, j | 0 <= i < j < |t|
            ensures t[i] != t[j]
          {
            assert t[i] == s[i + 1] && t[j] == s[j + 1];
          }
        }
        assert s[0] !in t;
      }
      if forall x :: multiset(s)[x] <= 1 {
        assert multiset(s)[s[0]] <= 1;
        assert s[0] !in multiset(t);
        forall i, j | 0 <= i < j < |s|
          ensures s[i] != s[j]
        {
          if i == 0 {
            assert s[j] == t[j - 1];
            assert t[j - 1] in multiset(t);
          } else {
            assert s[i] == t[i - 1] && s[j] == t[j - 1];
          }
        }
      }
    }
  }

  /** Rearranging a sequence without duplicates leaves it without duplicates. */
  lemma PermutationDistinct<T>(a: seq<T>, b: seq<T>)
    requires multiset(a) == multiset(b) && Distinct(a)
    ensures Distinct(b)
  {
    DistinctMultiset(a);
    DistinctMultiset(b);
  }

  /** Every value other than `x`, as a named function so that every use
      denotes the same value. */
  function Other<T(==)>(x: T): T -> bool {
    y => y != x
  }

  /** `s` with `x` taken out if it is there and appended if it is not
      (`prev.includes(x) ? prev.filter(y => y !== x) : [...prev, x]`). */
  function Toggle<T(==,!new)>(s: seq<T>, x: T): (r: seq<T>)
    ensures x in r <==> x !in s
    ensures forall y :: y != x ==> (y in r <==> y in s)
    ensures x in s ==> Subsequence(r, s) && |r| < |s|
    ensures x !in s ==> |r| == |s| + 1 && r[..|s|] == s && r[|s|] == x
  {
    if x in s then Filter(Other(x), s) else s + [x]
  }

  /** Toggling a value in and out again restores the list. */
  lemma ToggleTwice<T(!new)>(s: seq<T>, x: T)
    requires x !in s
    ensures Toggle(Toggle(s, x), x) == s
  {
    FilterConcat(Other(x), s, [x]);
    FilterAll(Other(x), s);
    assert Filter(Other(x), [x]) == [];
  }

  /** Both predicates at once, as a named function. */
  function Both<T>(p: T -> bool, q: T -> bool): T -> bool {
    x => p(x) && q(x)
  }

  /** Filtering by `p` and then by `q` is filtering once by both. */
  lemma {:induction false} FilterFilter<T(!new)>(p: T -> bool, q: T -> bool, s: seq<T>)
    ensures Filter(q, Filter(p, s)) == Filter(Both(p, q), s)
    decreases |s|
  {
    if |s| > 0 {
      FilterFilter(p, q, s[1..]);
    }
  }
}
