/**
 * Sequence vocabulary shared by the dashboard model: the subsequence
 * relation (what a boolean-mask selection produces), sorting a list of
 * values into a strictly ascending, duplicate-free list (Python's
 * `sorted(series.unique())`), and sorting records by a numeric key
 * (pandas `sort_values`).
 */
module Seqs {

  /** `less` is a strict total order on T. */
  ghost predicate StrictTotalOrder<T(!new)>(less: (T, T) -> bool) {
    && (forall x :: !less(x, x))
    && (forall x, y, z :: less(x, y) && less(y, z) ==> less(x, z))
    && (forall x, y :: x != y ==> less(x, y) || less(y, x))
  }

  predicate StrictlyAscending<T>(s: seq<T>, less: (T, T) -> bool) {
    forall i, j :: 0 <= i < j < |s| ==> less(s[i], s[j])
  }

  predicate Distinct<T(==)>(s: seq<T>) {
    forall i, j :: 0 <= i < j < |s| ==> s[i] != s[j]
  }

  /**
   * `a` can be obtained from `b` by deleting elements, keeping the order
   * of the rest.  Matched greedily from the end.
   */
  predicate IsSubsequence<T(==)>(a: seq<T>, b: seq<T>)
    decreases |b|
  {
    if a == [] then true
    else if b == [] then false
    else if a[|a| - 1] == b[|b| - 1] then IsSubsequence(a[..|a| - 1], b[..|b| - 1])
    else IsSubsequence(a, b[..|b| - 1])
  }

  lemma {:induction false} SubsequenceDropLast<T>(a: seq<T>, b: seq<T>)
    requires a != [] && IsSubsequence(a, b)
    ensures IsSubsequence(a[..|a| - 1], b)
    decreases |b|, 0
  {
    var a' := a[..|a| - 1];
    if a' == [] {
    } else if a[|a| - 1] == b[|b| - 1] {
      SubsequenceExtend(a', b[..|b| - 1], b[|b| - 1]);
      assert b[..|b| - 1] + [b[|b| - 1]] == b;
    } else {
      SubsequenceDropLast(a, b[..|b| - 1]);
      SubsequenceExtend(a', b[..|b| - 1], b[|b| - 1]);
      assert b[..|b| - 1] + [b[|b| - 1]] == b;
    }
  }

  /** Appending an element to the longer sequence keeps the relation. */
  lemma {:induction false} SubsequenceExtend<T>(a: seq<T>, b: seq<T>, x: T)
    requires IsSubsequence(a, b)
    ensures IsSubsequence(a, b + [x])
    decreases |b|, 1
  {
    var b' := b + [x];
    assert b'[..|b'| - 1] == b;
    if a != [] && a[|a| - 1] == x {
      SubsequenceDropLast(a, b);
    }
  }

  /** Appending the same element to both sides keeps the relation. */
  lemma SubsequenceAppendBoth<T>(a: seq<T>, b: seq<T>, x: T)
    requires IsSubsequence(a, b)
    ensures IsSubsequence(a + [x], b + [x])
  {
    assert (a + [x])[..|a|] == a;
    assert (b + [x])[..|b|] == b;
  }

  /** Appending any suffix to the longer sequence keeps the relation. */
  lemma {:induction false} SubsequenceAppendRight<T>(a: seq<T>, b: seq<T>, c: seq<T>)
    requires IsSubsequence(a, b)
    ensures IsSubsequence(a, b + c)
    decreases |c|
  {
    if c == [] {
      assert b + c == b;
    } else {
      var c' := c[..|c| - 1];
      SubsequenceAppendRight(a, b, c');
      SubsequenceExtend(a, b + c', c[|c| - 1]);
      assert (b + c') + [c[|c| - 1]] == b + c;
    }
  }

  /** Prepending any prefix to the longer sequence keeps the relation. */
  lemma {:induction false} SubsequencePrependLeft<T>(a: seq<T>, b: seq<T>, c: seq<T>)
    requires IsSubsequence(a, c)
    ensures IsSubsequence(a, b + c)
    decreases |c|
  {
    if a != [] {
      var bc := b + c;
      assert bc[|bc| - 1] == c[|c| - 1];
      assert bc[..|bc| - 1] == b + c[..|c| - 1];
      if a[|a| - 1] == c[|c| - 1] {
        SubsequencePrependLeft(a[..|a| - 1], b, c[..|c| - 1]);
      } else {
        SubsequencePrependLeft(a, b, c[..|c| - 1]);
      }
    }
  }

  /** A subsequence uses only elements of the longer sequence. */
  lemma {:induction false} SubsequenceElements<T>(a: seq<T>, b: seq<T>)
    requires IsSubsequence(a, b)
    ensures forall x :: x in a ==> x in b
    ensures |a| <= |b|
    decreases |b|
  {
    if a == [] {
    } else if a[|a| - 1] == b[|b| - 1] {
      SubsequenceElements(a[..|a| - 1], b[..|b| - 1]);
      assert a == a[..|a| - 1] + [a[|a| - 1]];
      assert b == b[..|b| - 1] + [b[|b| - 1]];
    } else {
      SubsequenceElements(a, b[..|b| - 1]);
      assert b == b[..|b| - 1] + [b[|b| - 1]];
    }
  }

  // ---------------------------------------------------------------------
  // Selecting the elements that satisfy a predicate (a boolean mask)
  // ---------------------------------------------------------------------

  /** The elements of `s` that satisfy `p`, in their original order. */
  function FilterBy<T>(s: seq<T>, p: T -> bool): seq<T> {
    if s == [] then []
    else FilterBy(s[..|s| - 1], p) + if p(s[|s| - 1]) then [s[|s| - 1]] else []
  }

  lemma FilterBySnoc<T>(init: seq<T>, last: T, p: T -> bool)
    ensures FilterBy(init + [last], p) == FilterBy(init, p) + if p(last) then [last] else []
  {
    assert (init + [last])[..|init|] == init;
  }

  /** The selection is an order-preserving subsequence of `s`. */
  lemma {:induction false} FilterBySubsequence<T>(s: seq<T>, p: T -> bool)
    ensures IsSubsequence(FilterBy(s, p), s)
  {
    if s != [] {
      var init, last := s[..|s| - 1], s[|s| - 1];
      FilterBySubsequence(init, p);
      assert s == init + [last];
      FilterBySnoc(init, last, p);
      if p(last) {
        SubsequenceAppendBoth(FilterBy(init, p), init, last);
      } else {
        assert FilterBy(s, p) == FilterBy(init, p);
        SubsequenceExtend(FilterBy(init, p), init, last);
      }
    }
  }

  /** The selection holds every satisfying element as often as `s` does, and nothing else. */
  lemma {:induction false} FilterByCounts<T>(s: seq<T>, p: T -> bool)
    ensures forall x :: multiset(FilterBy(s, p))[x] == if p(x) then multiset(s)[x] else 0
  {
    if s != [] {
      var init, last := s[..|s| - 1], s[|s| - 1];
      FilterByCounts(init, p);
      assert s == init + [last];
      FilterBySnoc(init, last, p);
      var m := multiset(FilterBy(init, p));
      assert multiset(FilterBy(s, p)) == m + if p(last) then multiset{last} else multiset{};
      assert multiset(s) == multiset(init) + multiset{last};
    }
  }

  /**
   * The selection is an order-preserving subsequence that keeps every
   * satisfying element as often as `s` holds it and no other element.
   */
  lemma FilterByExact<T>(s: seq<T>, p: T -> bool)
    ensures IsSubsequence(FilterBy(s, p), s)
    ensures forall x :: multiset(FilterBy(s, p))[x] == if p(x) then multiset(s)[x] else 0
    ensures forall x :: x in FilterBy(s, p) ==> p(x)
    ensures forall x :: x in s && p(x) ==> x in FilterBy(s, p)
  {
    FilterBySubsequence(s, p);
    FilterByCounts(s, p);
    forall x | x in FilterBy(s, p) ensures p(x) {
      assert multiset(FilterBy(s, p))[x] > 0;
    }
    forall x | x in s && p(x) ensures x in FilterBy(s, p) {
      assert multiset(s)[x] > 0;
    }
  }

  lemma {:induction false} FilterByCongruent<T>(s: seq<T>, p: T -> bool, q: T -> bool)
    requires forall x :: x in s ==> p(x) == q(x)
    ensures FilterBy(s, p) == FilterBy(s, q)
  {
    if s != [] {
      FilterByCongruent(s[..|s| - 1], p, q);
      assert s[|s| - 1] in s;
    }
  }

  /** A weaker predicate selects a supersequence. */
  lemma {:induction false} FilterByMonotone<T>(s: seq<T>, p: T -> bool, q: T -> bool)
    requires forall x :: p(x) ==> q(x)
    ensures IsSubsequence(FilterBy(s, p), FilterBy(s, q))
  {
    if s != [] {
      var init, last := s[..|s| - 1], s[|s| - 1];
      FilterByMonotone(init, p, q);
      assert s == init + [last];
      FilterBySnoc(init, last, p);
      FilterBySnoc(init, last, q);
      if p(last) {
        SubsequenceAppendBoth(FilterBy(init, p), FilterBy(init, q), last);
      } else if q(last) {
        SubsequenceExtend(FilterBy(init, p), FilterBy(init, q), last);
      } else {
        assert FilterBy(s, p) == FilterBy(init, p) && FilterBy(s, q) == FilterBy(init, q);
      }
    }
  }

  /** Two selections commute. */
  lemma {:induction false} FilterByCommutes<T>(s: seq<T>, p: T -> bool, q: T -> bool)
    ensures FilterBy(FilterBy(s, q), p) == FilterBy(FilterBy(s, p), q)
  {
    if s != [] {
      var init, last := s[..|s| - 1], s[|s| - 1];
      FilterByCommutes(init, p, q);
      assert s == init + [last];
      FilterBySnoc(init, last, p);
      FilterBySnoc(init, last, q);
      var a, b := FilterBy(init, q), FilterBy(init, p);
      if q(last) {
        FilterBySnoc(a, last, p);
      } else {
        assert FilterBy(s, q) == a;
      }
      if p(last) {
        FilterBySnoc(b, last, q);
      } else {
        assert FilterBy(s, p) == b;
      }
    }
  }

  // ---------------------------------------------------------------------
  // Sorted, duplicate-free lists of values
  // ---------------------------------------------------------------------

  /** Inserts `x` into the ascending list `s` unless it is already there. */
  function InsertUnique<T(==)>(s: seq<T>, x: T, less: (T, T) -> bool): seq<T> {
    if s == [] then [x]
    else if s[0] == x then s
    else if less(x, s[0]) then [x] + s
    else [s[0]] + InsertUnique(s[1..], x, less)
  }

  /** The distinct values of `xs` in ascending order. */
  function SortedDistinct<T(==)>(xs: seq<T>, less: (T, T) -> bool): seq<T> {
    if xs == [] then [] else InsertUnique(SortedDistinct(xs[1..], less), xs[0], less)
  }

  lemma {:induction false} InsertUniqueCorrect<T(!new)>(s: seq<T>, x: T, less: (T, T) -> bool)
    requires StrictTotalOrder(less) && StrictlyAscending(s, less)
    ensures StrictlyAscending(InsertUnique(s, x, less), less)
    ensures forall y :: y in InsertUnique(s, x, less) <==> y in s || y == x
  {
    if s == [] || s[0] == x {
    } else if less(x, s[0]) {
      var r := [x] + s;
      forall i, j | 0 <= i < j < |r| ensures less(r[i], r[j]) {
        if i == 0 && j > 1 {
          assert less(s[0], s[j - 1]);
        }
      }
    } else {
      assert less(s[0], x);
      var tail := s[1..];
      assert StrictlyAscending(tail, less);
      InsertUniqueCorrect(tail, x, less);
      var rest := InsertUnique(tail, x, less);
      var r := [s[0]] + rest;
      forall i, j | 0 <= i < j < |r| ensures less(r[i], r[j]) {
        if i == 0 {
          var y := rest[j - 1];
          assert y in rest;
          if y != x {
            var k :| 0 <= k < |tail| && tail[k] == y;
            assert s[k + 1] == y;
          }
        }
      }
    }
  }

  lemma {:induction false} SortedDistinctCorrect<T(!new)>(xs: seq<T>, less: (T, T) -> bool)
    requires StrictTotalOrder(less)
    ensures StrictlyAscending(SortedDistinct(xs, less), less)
    ensures forall y :: y in SortedDistinct(xs, less) <==> y in xs
  {
    if xs != [] {
      SortedDistinctCorrect(xs[1..], less);
      InsertUniqueCorrect(SortedDistinct(xs[1..], less), xs[0], less);
      assert xs == [xs[0]] + xs[1..];
    }
  }

  /** A strictly ascending list has no duplicates. */
  lemma AscendingIsDistinct<T(!new)>(s: seq<T>, less: (T, T) -> bool)
    requires StrictTotalOrder(less) && StrictlyAscending(s, less)
    ensures Distinct(s)
  {
    forall i, j | 0 <= i < j < |s| ensures s[i] != s[j] {
      assert less(s[i], s[j]);
    }
  }

  lemma {:induction false} DistinctMultiplicity<T>(s: seq<T>)
    requires Distinct(s)
    ensures forall x :: multiset(s)[x] <= 1
  {
    if s != [] {
      DistinctMultiplicity(s[1..]);
      assert s == [s[0]] + s[1..];
      assert s[0] !in s[1..];
    }
  }

  lemma RepeatedMultiplicity<T>(b: seq<T>, i: nat, j: nat)
    requires i < j < |b|
    ensures b[i] == b[j] ==> multiset(b)[b[i]] >= 2
  {
    assert b == b[..j] + b[j..];
    assert b[i] in b[..j] && b[j] in b[j..];
    assert multiset(b)[b[i]] == multiset(b[..j])[b[i]] + multiset(b[j..])[b[i]];
  }

  /** A rearrangement of a duplicate-free list is duplicate-free. */
  lemma PermutationKeepsDistinct<T>(a: seq<T>, b: seq<T>)
    requires Distinct(a) && multiset(a) == multiset(b)
    ensures Distinct(b)
  {
    DistinctMultiplicity(a);
    forall i, j | 0 <= i < j < |b| ensures b[i] != b[j] {
      RepeatedMultiplicity(b, i, j);
    }
  }

  /**
   * A strictly ascending list is determined by its elements: sorting the
   * distinct values of a column has exactly one correct answer.
   */
  lemma {:induction false} AscendingUnique<T(!new)>(a: seq<T>, b: seq<T>, less: (T, T) -> bool)
    requires StrictTotalOrder(less)
    requires StrictlyAscending(a, less) && StrictlyAscending(b, less)
    requires forall y :: y in a <==> y in b
    ensures a == b
  {
    assert b != [] ==> b[0] in b;
    if a != [] {
      assert a[0] in a;
      assert a[0] == b[0];
      forall y ensures y in a[1..] <==> y in b[1..] {
        if y in a[1..] {
          var i :| 0 <= i < |a[1..]| && a[1..][i] == y;
          assert less(a[0], a[i + 1]);
          assert y in b && y != b[0];
        }
        if y in b[1..] {
          var i :| 0 <= i < |b[1..]| && b[1..][i] == y;
          assert less(b[0], b[i + 1]);
          assert y in a && y != a[0];
        }
      }
      AscendingUnique(a[1..], b[1..], less);
      assert a == [a[0]] + a[1..];
      assert b == [b[0]] + b[1..];
    }
  }

  // ---------------------------------------------------------------------
  // Sorting records by a numeric key
  // ---------------------------------------------------------------------

  predicate SortedByKey<T>(s: seq<T>, key: T -> real) {
    forall i, j :: 0 <= i < j < |s| ==> key(s[i]) <= key(s[j])
  }

  function InsertByKey<T>(s: seq<T>, x: T, key: T -> real): seq<T> {
    if s == [] || key(x) <= key(s[0]) then [x] + s
    else [s[0]] + InsertByKey(s[1..], x, key)
  }

  /** Insertion sort, ascending in `key`; the order among equal keys is not specified. */
  function SortByKey<T>(s: seq<T>, key: T -> real): seq<T> {
    if s == [] then [] else InsertByKey(SortByKey(s[1..], key), s[0], key)
  }

  /** Inserting adds exactly `x`, and the new head is `x` or the old head. */
  lemma {:induction false} InsertByKeyPerm<T>(s: seq<T>, x: T, key: T -> real)
    ensures multiset(InsertByKey(s, x, key)) == multiset(s) + multiset{x}
    ensures |InsertByKey(s, x, key)| == |s| + 1
    ensures InsertByKey(s, x, key)[0] == x || InsertByKey(s, x, key)[0] == s[0]
  {
    if s != [] && key(x) > key(s[0]) {
      InsertByKeyPerm(s[1..], x, key);
      assert s == [s[0]] + s[1..];
    }
  }

  lemma {:induction false} InsertByKeyCorrect<T>(s: seq<T>, x: T, key: T -> real)
    requires SortedByKey(s, key)
    ensures SortedByKey(InsertByKey(s, x, key), key)
  {
    if s == [] || key(x) <= key(s[0]) {
      var r := [x] + s;
      forall i, j | 0 <= i < j < |r| ensures key(r[i]) <= key(r[j]) {
        if i == 0 && j > 1 {
          assert key(s[0]) <= key(s[j - 1]);
        }
      }
    } else {
      var tail := s[1..];
      InsertByKeyCorrect(tail, x, key);
      InsertByKeyPerm(tail, x, key);
      var rest := InsertByKey(tail, x, key);
      var r := [s[0]] + rest;
      assert key(s[0]) <= key(rest[0]);
      forall i, j | 0 <= i < j < |r| ensures key(r[i]) <= key(r[j]) {
        if i == 0 && j > 1 {
          assert key(rest[0]) <= key(rest[j - 1]);
        }
      }
    }
  }

  lemma SortByKeyCorrect<T>(s: seq<T>, key: T -> real)
    ensures SortedByKey(SortByKey(s, key), key)
    ensures multiset(SortByKey(s, key)) == multiset(s)
    ensures |SortByKey(s, key)| == |s|
  {
    SortByKeySorted(s, key);
    SortByKeyPerm(s, key);
  }

  lemma {:induction false} SortByKeySorted<T>(s: seq<T>, key: T -> real)
    ensures SortedByKey(SortByKey(s, key), key)
  {
    if s != [] {
      SortByKeySorted(s[1..], key);
      InsertByKeyCorrect(SortByKey(s[1..], key), s[0], key);
    }
  }

  lemma {:induction false} SortByKeyPerm<T>(s: seq<T>, key: T -> real)
    ensures multiset(SortByKey(s, key)) == multiset(s)
    ensures |SortByKey(s, key)| == |s|
  {
    if s != [] {
      SortByKeyPerm(s[1..], key);
      InsertByKeyPerm(SortByKey(s[1..], key), s[0], key);
      assert s == [s[0]] + s[1..];
    }
  }



  /** The first `n` elements (pandas `head(n)`). */
  function Head<T>(s: seq<T>, n: nat): (r: seq<T>)
    ensures |r| <= n && |r| <= |s|
    ensures r == s[..|r|]
    ensures |r| == if |s| <= n then |s| else n
  {
    if |s| <= n then s else s[..n]
  }

  /** `[f(x) for x in s]`. */
  function MapSeq<A, B>(s: seq<A>, f: A -> B): (r: seq<B>)
    ensures |r| == |s|
    ensures forall i :: 0 <= i < |s| ==> r[i] == f(s[i])
  {
    if s == [] then [] else [f(s[0])] + MapSeq(s[1..], f)
  }

  /**
   * One record per key of a duplicate-free key list, sorted by `key`: the
   * result is sorted, holds exactly the records built from the keys, and
   * no key (read back with `proj`) appears twice.
   */
  lemma SortedRecords<K, V>(keys: seq<K>, f: K -> V, proj: V -> K, key: V -> real)
    requires Distinct(keys)
    requires forall k :: proj(f(k)) == k
    ensures SortedByKey(SortByKey(MapSeq(keys, f), key), key)
    ensures |SortByKey(MapSeq(keys, f), key)| == |keys|
    ensures forall v :: v in SortByKey(MapSeq(keys, f), key) <==> exists k :: k in keys && v == f(k)
    ensures forall i, j :: 0 <= i < j < |SortByKey(MapSeq(keys, f), key)| ==>
              proj(SortByKey(MapSeq(keys, f), key)[i]) != proj(SortByKey(MapSeq(keys, f), key)[j])
  {
    var m := MapSeq(keys, f);
    var r := SortByKey(m, key);
    SortByKeyCorrect(m, key);
    SameElements(m, r);
    MapSeqMembers(keys, f);
    forall i, j | 0 <= i < j < |m| ensures m[i] != m[j] {
      assert proj(m[i]) == keys[i] && proj(m[j]) == keys[j];
    }
    PermutationKeepsDistinct(m, r);
    forall i | 0 <= i < |r| ensures r[i] == f(proj(r[i])) {
      assert r[i] in r;
      var k :| k in keys && r[i] == f(k);
    }
  }

  /** Two rearrangements of each other have the same elements. */
  lemma SameElements<T>(a: seq<T>, b: seq<T>)
    requires multiset(a) == multiset(b)
    ensures forall v :: v in a ==> v in b
    ensures forall v :: v in b ==> v in a
  {
    forall v ensures v in a <==> v in b {
      assert v in a <==> multiset(a)[v] > 0;
      assert v in b <==> multiset(b)[v] > 0;
    }
  }

  lemma MapSeqMembers<A, B>(s: seq<A>, f: A -> B)
    ensures forall v :: v in MapSeq(s, f) <==> exists x :: x in s && v == f(x)
  {
    var m := MapSeq(s, f);
    forall v | v in m ensures exists x :: x in s && v == f(x) {
      var i :| 0 <= i < |m| && m[i] == v;
      assert s[i] in s;
    }
    forall v | exists x :: x in s && v == f(x) ensures v in m {
      var x :| x in s && v == f(x);
      var i :| 0 <= i < |s| && s[i] == x;
      assert m[i] == v;
    }
  }


  /**
   * An element of a sorted list that is not among the first `n` shown (no
   * shown element has its `proj`) has a key no smaller than any shown.
   */
  lemma HeadIsTop<T, K>(s: seq<T>, key: T -> real, proj: T -> K, n: nat, k: nat)
    requires SortedByKey(s, key) && k < |s|
    requires forall i :: 0 <= i < |Head(s, n)| ==> proj(Head(s, n)[i]) != proj(s[k])
    ensures forall i :: 0 <= i < |Head(s, n)| ==> key(Head(s, n)[i]) <= key(s[k])
  {
    var h := Head(s, n);
    assert k >= |h|;
    forall i | 0 <= i < |h| ensures key(h[i]) <= key(s[k]) {
      assert h[i] == s[i];
    }
  }


  // ---------------------------------------------------------------------
  // Sums over a key list
  // ---------------------------------------------------------------------

  function SumOver<K>(ks: seq<K>, f: K -> real): real {
    if ks == [] then 0.0 else f(ks[0]) + SumOver(ks[1..], f)
  }

  lemma {:induction false} SumOverZero<K>(ks: seq<K>, f: K -> real)
    requires forall k :: f(k) == 0.0
    ensures SumOver(ks, f) == 0.0
  {
    if ks != [] {
      SumOverZero(ks[1..], f);
    }
  }

  /** Over distinct keys, a term that vanishes away from `k0` is counted once or not at all. */
  lemma {:induction false} SumOverSingle<K>(ks: seq<K>, f: K -> real, k0: K)
    requires Distinct(ks)
    requires forall k :: k != k0 ==> f(k) == 0.0
    ensures SumOver(ks, f) == if k0 in ks then f(k0) else 0.0
  {
    if ks != [] {
      var tail := ks[1..];
      assert Distinct(tail) by {
        forall i, j | 0 <= i < j < |tail| ensures tail[i] != tail[j] {
          assert tail[i] == ks[i + 1] && tail[j] == ks[j + 1];
        }
      }
      SumOverSingle(tail, f, k0);
      assert ks == [ks[0]] + tail;
      if ks[0] == k0 {
        assert k0 !in tail by {
          forall i | 0 <= i < |tail| ensures tail[i] != k0 {
            assert tail[i] == ks[i + 1];
          }
        }
      }
    }
  }
}
