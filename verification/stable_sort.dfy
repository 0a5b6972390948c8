/**
 * `Array.prototype.sort` with a numeric comparator `(a, b) => key(a) - key(b)`.
 * ECMAScript requires this sort to be stable, so the result is the unique
 * ordering by ascending key that keeps equal-key elements in input order;
 * the model computes it by insertion sort.
 */
module StableSort {

  /** `xs` is in ascending key order. */
  predicate SortedBy<T>(xs: seq<T>, key: T -> int) {
    forall i, j :: 0 <= i < j < |xs| ==> key(xs[i]) <= key(xs[j])
  }

  /** The elements whose key is `k`, in their order in `xs`. */
  function WithKey<T>(xs: seq<T>, key: T -> int, k: int): seq<T> {
    if |xs| == 0 then []
    else WithKey(xs[..|xs| - 1], key, k) + (if key(xs[|xs| - 1]) == k then [xs[|xs| - 1]] else [])
  }

  lemma WithKeySnoc<T>(xs: seq<T>, x: T, key: T -> int)
    ensures forall k :: WithKey(xs + [x], key, k) == WithKey(xs, key, k) + (if key(x) == k then [x] else [])
  {
    assert (xs + [x])[..|xs|] == xs;
  }

  /** Inserts `x` into a sorted sequence after every element whose key is at most `key(x)`. */
  function Insert<T>(sorted: seq<T>, x: T, key: T -> int): seq<T>
    decreases |sorted|
  {
    if |sorted| == 0 || key(sorted[|sorted| - 1]) <= key(x) then sorted + [x]
    else Insert(sorted[..|sorted| - 1], x, key) + [sorted[|sorted| - 1]]
  }

  lemma {:induction false} InsertSorted<T>(sorted: seq<T>, x: T, key: T -> int)
    requires SortedBy(sorted, key)
    ensures SortedBy(Insert(sorted, x, key), key)
    ensures multiset(Insert(sorted, x, key)) == multiset(sorted) + multiset{x}
    decreases |sorted|
  {
    if |sorted| > 0 && key(x) < key(sorted[|sorted| - 1]) {
      var init, last := sorted[..|sorted| - 1], sorted[|sorted| - 1];
      assert sorted == init + [last];
      InsertSorted(init, x, key);
      var r := Insert(init, x, key);
      forall i | 0 <= i < |r| ensures key(r[i]) <= key(last) {
        assert r[i] in multiset(r);
        if r[i] != x {
          assert r[i] in multiset(init);
          var j :| 0 <= j < |init| && init[j] == r[i];
          assert sorted[j] == init[j];
        }
      }
    }
  }

  lemma {:induction false} InsertWithKey<T>(sorted: seq<T>, x: T, key: T -> int, k: int)
    requires SortedBy(sorted, key)
    ensures WithKey(Insert(sorted, x, key), key, k) == WithKey(sorted, key, k) + (if key(x) == k then [x] else [])
    decreases |sorted|
  {
    WithKeySnoc(sorted, x, key);
    if |sorted| > 0 && key(x) < key(sorted[|sorted| - 1]) {
      var init, last := sorted[..|sorted| - 1], sorted[|sorted| - 1];
      assert sorted == init + [last];
      assert SortedBy(init, key);
      InsertWithKey(init, x, key, k);
      WithKeySnoc(Insert(init, x, key), last, key);
      WithKeySnoc(init, last, key);
    }
  }

  /** The stable ascending sort of `xs` by `key`. */
  function Sort<T>(xs: seq<T>, key: T -> int): (r: seq<T>)
    ensures SortedBy(r, key)
    ensures |r| == |xs| && multiset(r) == multiset(xs)
    ensures forall k :: WithKey(r, key, k) == WithKey(xs, key, k)
    decreases |xs|
  {
    if |xs| == 0 then []
    else
      var init, x := xs[..|xs| - 1], xs[|xs| - 1];
      assert xs == init + [x];
      var s := Sort(init, key);
      InsertSorted(s, x, key);
      WithKeySnoc(init, x, key);
      assert forall k :: WithKey(Insert(s, x, key), key, k) == WithKey(xs, key, k) by {
        forall k ensures WithKey(Insert(s, x, key), key, k) == WithKey(xs, key, k) {
          InsertWithKey(s, x, key, k);
        }
      }
      assert |Insert(s, x, key)| == |multiset(Insert(s, x, key))|;
      Insert(s, x, key)
  }

  lemma {:induction false} WithKeyMembers<T>(xs: seq<T>, key: T -> int, k: int)
    ensures forall i :: 0 <= i < |WithKey(xs, key, k)| ==>
      WithKey(xs, key, k)[i] in xs && key(WithKey(xs, key, k)[i]) == k
    decreases |xs|
  {
    if |xs| > 0 {
      var init := xs[..|xs| - 1];
      WithKeyMembers(init, key, k);
      assert forall y :: y in init ==> y in xs;
    }
  }

  /** In a sorted sequence, the last element carries the largest key of all. */
  lemma LastKeyIsLargest<T>(xs: seq<T>, key: T -> int, k: int)
    requires SortedBy(xs, key) && |xs| > 0 && |WithKey(xs, key, k)| > 0
    ensures k <= key(xs[|xs| - 1])
  {
    WithKeyMembers(xs, key, k);
    var y := WithKey(xs, key, k)[0];
    var i :| 0 <= i < |xs| && xs[i] == y;
    assert i < |xs| - 1 ==> key(xs[i]) <= key(xs[|xs| - 1]);
  }

  /** Sorting neither adds nor loses elements. */
  lemma SortSameElements<T>(xs: seq<T>, key: T -> int)
    ensures forall x :: x in Sort(xs, key) <==> x in xs
  {
    var r := Sort(xs, key);
    assert forall x :: x in r <==> x in multiset(r);
    assert forall x :: x in xs <==> x in multiset(xs);
  }

  lemma LastHasKey<T>(xs: seq<T>, key: T -> int)
    requires |xs| > 0
    ensures |WithKey(xs, key, key(xs[|xs| - 1]))| > 0
  {
    assert xs == xs[..|xs| - 1] + [xs[|xs| - 1]];
    WithKeySnoc(xs[..|xs| - 1], xs[|xs| - 1], key);
  }

  /**
   * Two sorted sequences with the same elements of each key, in the same
   * order, are equal: sortedness plus stability leaves no choice.
   */
  lemma {:induction false} SortedUnique<T>(a: seq<T>, b: seq<T>, key: T -> int)
    requires SortedBy(a, key) && SortedBy(b, key)
    requires forall k :: WithKey(a, key, k) == WithKey(b, key, k)
    ensures a == b
    decreases |a|
  {
    if |a| == 0 || |b| == 0 {
      if |a| > 0 {
        LastHasKey(a, key);
      } else if |b| > 0 {
        LastHasKey(b, key);
      }
    } else {
      var ia, la := a[..|a| - 1], a[|a| - 1];
      var ib, lb := b[..|b| - 1], b[|b| - 1];
      assert a == ia + [la] && b == ib + [lb];
      WithKeySnoc(ia, la, key);
      WithKeySnoc(ib, lb, key);
      assert |WithKey(b, key, key(la))| > 0;
      LastKeyIsLargest(b, key, key(la));
      assert |WithKey(a, key, key(lb))| > 0;
      LastKeyIsLargest(a, key, key(lb));
      var kk := key(la);
      assert kk == key(lb);
      var wa, wb := WithKey(a, key, kk), WithKey(b, key, kk);
      assert wa == WithKey(ia, key, kk) + [la];
      assert wb == WithKey(ib, key, kk) + [lb];
      assert wa[|wa| - 1] == la && wb[|wb| - 1] == lb;
      assert la == lb;
      forall k ensures WithKey(ia, key, k) == WithKey(ib, key, k) {
        if k == kk {
          assert WithKey(ia, key, k) + [la] == WithKey(ib, key, k) + [lb];
          assert WithKey(ia, key, k) == (WithKey(ia, key, k) + [la])[..|WithKey(ia, key, k)|];
        } else {
          assert WithKey(a, key, k) == WithKey(ia, key, k);
        }
      }
      SortedUnique(ia, ib, key);
    }
  }

  /** `Sort` is the only stable ascending ordering of `xs`. */
  lemma SortIsTheStableSort<T>(xs: seq<T>, ys: seq<T>, key: T -> int)
    requires SortedBy(ys, key)
    requires forall k :: WithKey(ys, key, k) == WithKey(xs, key, k)
    ensures ys == Sort(xs, key)
  {
    SortedUnique(ys, Sort(xs, key), key);
  }

  /** `f` applied to every element, in order. */
  function MapSeq<T, U>(xs: seq<T>, f: T -> U): (r: seq<U>)
    ensures |r| == |xs|
    ensures forall i :: 0 <= i < |xs| ==> r[i] == f(xs[i])
  {
    if |xs| == 0 then [] else MapSeq(xs[..|xs| - 1], f) + [f(xs[|xs| - 1])]
  }

  lemma MapSeqAppend<T, U>(a: seq<T>, b: seq<T>, f: T -> U)
    ensures MapSeq(a + b, f) == MapSeq(a, f) + MapSeq(b, f)
  {
    assert |MapSeq(a + b, f)| == |MapSeq(a, f) + MapSeq(b, f)|;
    forall i | 0 <= i < |a + b| ensures MapSeq(a + b, f)[i] == (MapSeq(a, f) + MapSeq(b, f))[i] {
      if i >= |a| {
        assert (a + b)[i] == b[i - |a|];
      }
    }
  }

  /** Mapping a rearrangement gives a rearrangement. */
  lemma {:induction false} MapSeqPermutation<T, U>(a: seq<T>, b: seq<T>, f: T -> U)
    requires multiset(a) == multiset(b)
    ensures multiset(MapSeq(a, f)) == multiset(MapSeq(b, f))
    decreases |a|
  {
    if |a| == 0 {
      assert |b| == |multiset(b)| == 0;
    } else {
      var x := a[|a| - 1];
      var a' := a[..|a| - 1];
      assert a == a' + [x];
      assert x in multiset(b);
      var p :| 0 <= p < |b| && b[p] == x;
      var u, v := b[..p], b[p + 1..];
      assert b == u + ([x] + v);
      assert multiset(a') == multiset(a) - multiset{x};
      assert multiset(u + v) == multiset(b) - multiset{x};
      MapSeqPermutation(a', u + v, f);
      MapSeqAppend(a', [x], f);
      MapSeqAppend(u, [x] + v, f);
      MapSeqAppend([x], v, f);
      MapSeqAppend(u, v, f);
    }
  }

  /** Selecting by key commutes with a key-preserving map. */
  lemma {:induction false} WithKeyMapped<T, U>(xs: seq<T>, f: T -> U, keyT: T -> int, keyU: U -> int, k: int)
    requires forall x :: keyU(f(x)) == keyT(x)
    ensures WithKey(MapSeq(xs, f), keyU, k) == MapSeq(WithKey(xs, keyT, k), f)
    decreases |xs|
  {
    if |xs| > 0 {
      var init, x := xs[..|xs| - 1], xs[|xs| - 1];
      WithKeyMapped(init, f, keyT, keyU, k);
      assert MapSeq(xs, f) == MapSeq(init, f) + [f(x)];
      WithKeySnoc(MapSeq(init, f), f(x), keyU);
      if keyT(x) == k {
        assert MapSeq(WithKey(init, keyT, k) + [x], f) == MapSeq(WithKey(init, keyT, k), f) + [f(x)];
      }
    }
  }

  /** Summing over a mapped sequence is summing the composition. */
  lemma {:induction false} SumByMapped<T, U>(xs: seq<T>, f: T -> U, g: U -> int, h: T -> int)
    requires forall x :: h(x) == g(f(x))
    ensures SumBy(MapSeq(xs, f), g) == SumBy(xs, h)
    decreases |xs|
  {
    if |xs| > 0 {
      var init, x := xs[..|xs| - 1], xs[|xs| - 1];
      SumByMapped(init, f, g, h);
      assert MapSeq(xs, f) == MapSeq(init, f) + [f(x)];
      assert MapSeq(xs, f)[..|xs| - 1] == MapSeq(init, f);
    }
  }

  /** The sum of `f` over the elements. */
  function SumBy<T>(xs: seq<T>, f: T -> int): int {
    if |xs| == 0 then 0 else SumBy(xs[..|xs| - 1], f) + f(xs[|xs| - 1])
  }

  lemma {:induction false} InsertKeepsSum<T>(sorted: seq<T>, x: T, key: T -> int, f: T -> int)
    ensures SumBy(Insert(sorted, x, key), f) == SumBy(sorted, f) + f(x)
    decreases |sorted|
  {
    if |sorted| > 0 && key(x) < key(sorted[|sorted| - 1]) {
      var init, last := sorted[..|sorted| - 1], sorted[|sorted| - 1];
      InsertKeepsSum(init, x, key, f);
      var r := Insert(init, x, key);
      assert (r + [last])[..|r|] == r;
    } else {
      assert (sorted + [x])[..|sorted|] == sorted;
    }
  }

  /** Sorting does not change a sum over the elements. */
  lemma {:induction false} SortKeepsSum<T>(xs: seq<T>, key: T -> int, f: T -> int)
    ensures SumBy(Sort(xs, key), f) == SumBy(xs, f)
    decreases |xs|
  {
    if |xs| > 0 {
      var init := xs[..|xs| - 1];
      SortKeepsSum(init, key, f);
      InsertKeepsSum(Sort(init, key), xs[|xs| - 1], key, f);
    }
  }

  lemma {:induction false} InsertKeepsMapped<T, U>(sorted: seq<T>, x: T, key: T -> int, f: T -> U)
    ensures multiset(MapSeq(Insert(sorted, x, key), f)) == multiset(MapSeq(sorted, f)) + multiset{f(x)}
    decreases |sorted|
  {
    if |sorted| > 0 && key(x) < key(sorted[|sorted| - 1]) {
      var init, last := sorted[..|sorted| - 1], sorted[|sorted| - 1];
      InsertKeepsMapped(init, x, key, f);
      var r := Insert(init, x, key);
      assert (r + [last])[..|r|] == r;
      assert MapSeq(r + [last], f) == MapSeq(r, f) + [f(last)];
      assert MapSeq(sorted, f) == MapSeq(init, f) + [f(last)];
    } else {
      assert (sorted + [x])[..|sorted|] == sorted;
    }
  }

  /** Sorting permutes the elements, so it permutes any projection of them too. */
  lemma {:induction false} SortKeepsMapped<T, U>(xs: seq<T>, key: T -> int, f: T -> U)
    ensures multiset(MapSeq(Sort(xs, key), f)) == multiset(MapSeq(xs, f))
    decreases |xs|
  {
    if |xs| > 0 {
      var init, x := xs[..|xs| - 1], xs[|xs| - 1];
      var s := Sort(init, key);
      assert Sort(xs, key) == Insert(s, x, key);
      SortKeepsMapped(init, key, f);
      InsertKeepsMapped(s, x, key, f);
      assert MapSeq(xs, f) == MapSeq(init, f) + [f(x)];
    }
  }
}
