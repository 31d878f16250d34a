/** Generic sequence operations used throughout the model: mapping, lookup
    of a first match, filtering, removal
    of a first occurrence (Java `List.remove(Object)`, Redis `LREM key 1 v`),
    and a stable insertion sort by a total comparison. */
module Seqs {
  import opened Common

  /** `f` applied to every element, in order. */
  function Map<A, B>(xs: seq<A>, f: A -> B): (r: seq<B>)
    ensures |r| == |xs| && forall i :: 0 <= i < |xs| ==> r[i] == f(xs[i])
  {
    seq(|xs|, i requires 0 <= i < |xs| => f(xs[i]))
  }

  /** The first element that satisfies `p`: what a lookup by a column
      returns when it reads the rows in order. */
  function FirstWhere<T>(xs: seq<T>, p: T -> bool): (r: Option<T>)
    ensures r.Some? ==> r.value in xs && p(r.value)
    ensures r.None? <==> forall i :: 0 <= i < |xs| ==> !p(xs[i])
  {
    if |xs| == 0 then None
    else if p(xs[0]) then Some(xs[0])
    else FirstWhere(xs[1..], p)
  }

  /** The elements of `xs` that satisfy `p`, in their original order. */
  function Filter<T>(xs: seq<T>, p: T -> bool): (r: seq<T>)
    ensures |r| <= |xs|
    ensures forall i :: 0 <= i < |r| ==> r[i] in xs && p(r[i])
    ensures forall i :: 0 <= i < |xs| && p(xs[i]) ==> xs[i] in r
  {
    if |xs| == 0 then [] else (if p(xs[0]) then [xs[0]] else []) + Filter(xs[1..], p)
  }

  lemma ConcatAssoc<T>(x: seq<T>, y: seq<T>, z: seq<T>)
    ensures x + (y + z) == (x + y) + z
  {
  }

  lemma {:induction false} FilterConcat<T>(a: seq<T>, b: seq<T>, p: T -> bool)
    ensures Filter(a + b, p) == Filter(a, p) + Filter(b, p)
  {
    if |a| > 0 {
      assert (a + b)[1..] == a[1..] + b;
      FilterConcat(a[1..], b, p);
    } else {
      assert a + b == b;
    }
  }

  /** The elements of `xs` carry pairwise distinct keys. */
  predicate DistinctKeys<T, K(==)>(xs: seq<T>, key: T -> K) {
    forall i, j :: 0 <= i < j < |xs| ==> key(xs[i]) != key(xs[j])
  }

  /** Filtering keeps the keys distinct. */
  lemma {:induction false} FilterKeepsDistinct<T, K>(xs: seq<T>, p: T -> bool, key: T -> K)
    requires DistinctKeys(xs, key)
    ensures DistinctKeys(Filter(xs, p), key)
  {
    if |xs| > 0 {
      var rest := Filter(xs[1..], p);
      assert DistinctKeys(xs[1..], key) by {
        forall i, j | 0 <= i < j < |xs[1..]|
          ensures key(xs[1..][i]) != key(xs[1..][j])
        {
          assert xs[1..][i] == xs[i + 1] && xs[1..][j] == xs[j + 1];
        }
      }
      FilterKeepsDistinct(xs[1..], p, key);
      if p(xs[0]) {
        var r := [xs[0]] + rest;
        forall i, j | 0 <= i < j < |r|
          ensures key(r[i]) != key(r[j])
        {
          if i == 0 {
            assert r[j] == rest[j - 1] && rest[j - 1] in xs[1..];
            var k :| 0 <= k < |xs[1..]| && xs[1..][k] == rest[j - 1];
            assert xs[k + 1] == r[j];
          } else {
            assert r[i] == rest[i - 1] && r[j] == rest[j - 1];
          }
        }
      }
    }
  }

  /** Filtering with two predicates that agree on the elements gives the same result. */
  lemma {:induction false} FilterExt<T>(xs: seq<T>, p: T -> bool, q: T -> bool)
    requires forall i :: 0 <= i < |xs| ==> p(xs[i]) == q(xs[i])
    ensures Filter(xs, p) == Filter(xs, q)
  {
    if |xs| > 0 {
      FilterExt(xs[1..], p, q);
    }
  }

  /** Filtering twice is filtering once by the conjunction. */
  lemma {:induction false} FilterFilter<T>(xs: seq<T>, p: T -> bool, q: T -> bool, pq: T -> bool)
    requires forall i :: 0 <= i < |xs| ==> pq(xs[i]) == (p(xs[i]) && q(xs[i]))
    ensures Filter(Filter(xs, p), q) == Filter(xs, pq)
  {
    if |xs| > 0 {
      FilterFilter(xs[1..], p, q, pq);
      var head := if p(xs[0]) then [xs[0]] else [];
      FilterConcat(head, Filter(xs[1..], p), q);
    }
  }

  /** A filter that keeps every element is the identity. */
  lemma {:induction false} FilterAll<T>(xs: seq<T>, p: T -> bool)
    requires forall i :: 0 <= i < |xs| ==> p(xs[i])
    ensures Filter(xs, p) == xs
  {
    if |xs| > 0 {
      FilterAll(xs[1..], p);
    }
  }

  /** `xs` without its first occurrence of `a`; unchanged when `a` is absent. */
  function RemoveFirst<T(==)>(xs: seq<T>, a: T): (r: seq<T>)
    ensures a !in xs ==> r == xs
    ensures a in xs ==> |r| == |xs| - 1
    ensures multiset(r) == multiset(xs) - multiset{a}
  {
    if |xs| == 0 then []
    else if xs[0] == a then
      assert xs == [xs[0]] + xs[1..];
      xs[1..]
    else
      assert xs == [xs[0]] + xs[1..];
      [xs[0]] + RemoveFirst(xs[1..], a)
  }

  /** Removing one occurrence of an element that the filter drops does not
      change the filter's result. */
  lemma {:induction false} FilterRemoveFirst<T>(xs: seq<T>, a: T, p: T -> bool)
    requires !p(a)
    ensures Filter(RemoveFirst(xs, a), p) == Filter(xs, p)
  {
    if |xs| > 0 && xs[0] != a {
      FilterRemoveFirst(xs[1..], a, p);
      assert RemoveFirst(xs, a) == [xs[0]] + RemoveFirst(xs[1..], a);
      assert ([xs[0]] + RemoveFirst(xs[1..], a))[1..] == RemoveFirst(xs[1..], a);
    }
  }

  ghost predicate Total<T(!new)>(leq: (T, T) -> bool) {
    forall a, b :: leq(a, b) || leq(b, a)
  }

  ghost predicate Transitive<T(!new)>(leq: (T, T) -> bool) {
    forall a, b, c :: leq(a, b) && leq(b, c) ==> leq(a, c)
  }

  /** Each element is `leq` its successor. */
  predicate Sorted<T>(xs: seq<T>, leq: (T, T) -> bool) {
    forall i :: 0 <= i < |xs| - 1 ==> leq(xs[i], xs[i + 1])
  }

  /** Insert `x` before the first element it is `leq` to. */
  function Insert<T(!new)>(x: T, xs: seq<T>, leq: (T, T) -> bool): (r: seq<T>)
    requires Total(leq)
    ensures |r| == |xs| + 1
    ensures multiset(r) == multiset(xs) + multiset{x}
    ensures r[0] == x || (|xs| > 0 && r[0] == xs[0])
    ensures Sorted(xs, leq) ==> Sorted(r, leq)
  {
    if |xs| == 0 then [x]
    else if leq(x, xs[0]) then
      assert xs == [xs[0]] + xs[1..];
      [x] + xs
    else
      var rest := Insert(x, xs[1..], leq);
      assert xs == [xs[0]] + xs[1..];
      var r := [xs[0]] + rest;
      assert r[1..] == rest;
      r
  }

  /** Stable insertion sort: the result is a permutation of the input in
      `leq` order; elements that compare equal keep their input order. */
  function SortBy<T(!new)>(xs: seq<T>, leq: (T, T) -> bool): (r: seq<T>)
    requires Total(leq)
    ensures |r| == |xs|
    ensures multiset(r) == multiset(xs)
    ensures Sorted(r, leq)
  {
    if |xs| == 0 then []
    else
      assert xs == [xs[0]] + xs[1..];
      Insert(xs[0], SortBy(xs[1..], leq), leq)
  }

  /** The elements satisfying `p` are mutually `leq`: `p` picks out elements
      that the comparison cannot tell apart. */
  ghost predicate Tied<T(!new)>(p: T -> bool, leq: (T, T) -> bool) {
    forall a, b :: p(a) && p(b) ==> leq(a, b)
  }

  lemma FilterSingle<T>(x: T, p: T -> bool)
    ensures Filter([x], p) == if p(x) then [x] else []
  {
    assert [x][1..] == [];
  }

  lemma TiedOrdered<T(!new)>(p: T -> bool, leq: (T, T) -> bool, a: T, b: T)
    requires Tied(p, leq)
    ensures p(a) && p(b) ==> leq(a, b)
  {
  }

  /** Two optional singletons commute when at most one is present. */
  lemma SwapSingles<T>(x: T, y: T, px: bool, py: bool, f: seq<T>)
    requires !(px && py)
    ensures (if py then [y] else []) + ((if px then [x] else []) + f)
         == (if px then [x] else []) + ((if py then [y] else []) + f)
  {
  }

  /** `x` goes before every element tied with it. */
  lemma {:induction false} InsertKeepsTies<T(!new)>(x: T, xs: seq<T>, leq: (T, T) -> bool, p: T -> bool)
    requires Total(leq) && Tied(p, leq)
    ensures Filter(Insert(x, xs, leq), p) == (if p(x) then [x] else []) + Filter(xs, p)
  {
    FilterSingle(x, p);
    if |xs| == 0 {
      assert Insert(x, xs, leq) == [x];
    } else if leq(x, xs[0]) {
      assert Insert(x, xs, leq) == [x] + xs;
      FilterConcat([x], xs, p);
    } else {
      var rest := Insert(x, xs[1..], leq);
      assert Insert(x, xs, leq) == [xs[0]] + rest;
      InsertKeepsTies(x, xs[1..], leq, p);
      FilterConcat([xs[0]], rest, p);
      assert xs == [xs[0]] + xs[1..];
      FilterConcat([xs[0]], xs[1..], p);
      FilterSingle(xs[0], p);
      TiedOrdered(p, leq, x, xs[0]);
      SwapSingles(x, xs[0], p(x), p(xs[0]), Filter(xs[1..], p));
    }
  }

  /** The sort is stable: the elements tied with each other come out in
      their input order. */
  lemma {:induction false} SortByKeepsTies<T(!new)>(xs: seq<T>, leq: (T, T) -> bool, p: T -> bool)
    requires Total(leq) && Tied(p, leq)
    ensures Filter(SortBy(xs, leq), p) == Filter(xs, p)
  {
    if |xs| > 0 {
      SortByKeepsTies(xs[1..], leq, p);
      InsertKeepsTies(xs[0], SortBy(xs[1..], leq), leq, p);
    }
  }

  /** With a transitive comparison, adjacent order is global order. */
  lemma {:induction false} SortedAll<T(!new)>(xs: seq<T>, leq: (T, T) -> bool)
    requires Transitive(leq)
    requires Sorted(xs, leq)
    ensures forall i, j :: 0 <= i < j < |xs| ==> leq(xs[i], xs[j])
  {
    if |xs| > 1 {
      SortedAll(xs[1..], leq);
      forall j | 1 < j < |xs|
        ensures leq(xs[0], xs[j])
      {
        assert leq(xs[1], xs[j]) by { assert xs[1..][0] == xs[1] && xs[1..][j - 1] == xs[j]; }
      }
      forall i, j | 1 <= i < j < |xs|
        ensures leq(xs[i], xs[j])
      {
        assert xs[1..][i - 1] == xs[i] && xs[1..][j - 1] == xs[j];
      }
    }
  }
}
