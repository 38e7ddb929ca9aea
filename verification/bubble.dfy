/**
 * Bubble sort as the visualizer runs it: n - 1 passes, pass i comparing the
 * neighbours (j, j + 1) for j = 0 .. n - i - 2 and exchanging them only when
 * the left one is strictly greater. There is no early exit when a pass makes
 * no exchange.
 */
module BubbleModel {
  import opened SortBasics

  /** One comparison of the inner loop. */
  function CompareSwap<T>(s: seq<T>, key: T -> int, j: nat): (r: seq<T>)
    requires j + 1 < |s|
    ensures |r| == |s| && key(r[j]) <= key(r[j + 1])
  {
    if key(s[j]) > key(s[j + 1]) then Swap(s, j, j + 1) else s
  }

  /** The first `j` comparisons of a pass, left to right. */
  function Pass<T>(s: seq<T>, key: T -> int, j: nat): (r: seq<T>)
    requires j < |s|
    ensures |r| == |s|
    decreases j
  {
    if j == 0 then s else CompareSwap(Pass(s, key, j - 1), key, j - 1)
  }

  /** How many of the first `j` comparisons of a pass exchange their neighbours. */
  function PassSwaps<T>(s: seq<T>, key: T -> int, j: nat): (r: nat)
    requires j < |s|
    ensures r <= j
    decreases j
  {
    if j == 0 then 0
    else
      var t := Pass(s, key, j - 1);
      PassSwaps(s, key, j - 1) + if key(t[j - 1]) > key(t[j]) then 1 else 0
  }

  /**
   * Comparison j of a pass, from the state after j comparisons; the count of
   * exchanges grows by one exactly when it exchanges. The following index k
   * is a separate argument tied by `j == k - 1`, in the form the bodies of
   * Pass and PassSwaps use, which keeps the proofs that call this cheap.
   */
  lemma PassStep<T>(s: seq<T>, key: T -> int, j: nat, k: nat)
    requires 0 < k < |s| && j == k - 1
    ensures Pass(s, key, k) == CompareSwap(Pass(s, key, j), key, j)
    ensures PassSwaps(s, key, k) == PassSwaps(s, key, j) + if key(Pass(s, key, j)[j]) > key(Pass(s, key, j)[k]) then 1 else 0
  {
  }

  /** The first `i` passes; pass p makes |s| - p - 1 comparisons. */
  function Passes<T>(s: seq<T>, key: T -> int, i: nat): (r: seq<T>)
    requires i < |s|
    ensures |r| == |s|
    decreases i
  {
    if i == 0 then s else Pass(Passes(s, key, i - 1), key, |s| - i)
  }

  /** How many exchanges the first `i` passes make. */
  function SwapsBefore<T>(s: seq<T>, key: T -> int, i: nat): nat
    requires i < |s|
    decreases i
  {
    if i == 0 then 0 else SwapsBefore(s, key, i - 1) + PassSwaps(Passes(s, key, i - 1), key, |s| - i)
  }

  /**
   * Pass i + 1 of the outer loop, from the state and counts after i passes.
   * The next index j is passed as a plain variable tied by `i == j - 1`, in
   * the form the bodies of Passes and SwapsBefore use, which keeps the loop
   * proofs that call this cheap.
   */
  lemma PassesNext<T>(s: seq<T>, key: T -> int, i: nat, j: nat)
    requires 0 < j < |s| && i == j - 1
    ensures Passes(s, key, j) == Pass(Passes(s, key, i), key, |s| - j)
    ensures SwapsBefore(s, key, j) == SwapsBefore(s, key, i) + PassSwaps(Passes(s, key, i), key, |s| - j)
    ensures ComparisonsBefore(|s|, j) == ComparisonsBefore(|s|, i) + (|s| - j)
  {
  }

  /** The whole of `bubbleSort` run to completion. */
  function BubbleSortBy<T>(s: seq<T>, key: T -> int): (r: seq<T>)
    ensures |r| == |s|
  {
    if |s| == 0 then s else Passes(s, key, |s| - 1)
  }

  /** A pass only exchanges cells: it permutes its input. */
  lemma {:induction false} PassPermutes<T>(s: seq<T>, key: T -> int, j: nat)
    requires j < |s|
    ensures multiset(Pass(s, key, j)) == multiset(s)
    decreases j
  {
    if j > 0 {
      var h := j - 1;
      PassPermutes(s, key, h);
      var t := Pass(s, key, h);
      if key(t[h]) > key(t[j]) {
        SwapPermutes(t, h, j);
        assert Pass(s, key, j) == Swap(t, h, j);
      } else {
        assert Pass(s, key, j) == t;
      }
    }
  }

  /** The first i passes permute the input. */
  lemma {:induction false} PassesPermute<T>(s: seq<T>, key: T -> int, i: nat)
    requires i < |s|
    ensures multiset(Passes(s, key, i)) == multiset(s)
    decreases i
  {
    if i > 0 {
      PassesPermute(s, key, i - 1);
      PassPermutes(Passes(s, key, i - 1), key, |s| - i);
    }
  }

  /** Comparisons made by the first `i` passes over `n` elements. */
  function ComparisonsBefore(n: nat, i: nat): nat
    requires i <= n
  {
    if i == 0 then 0 else ComparisonsBefore(n, i - 1) + (n - i)
  }

  /** A run never makes more exchanges than comparisons: at most one per comparison. */
  lemma {:induction false} SwapsAtMostComparisons<T>(s: seq<T>, key: T -> int, i: nat)
    requires i < |s|
    ensures SwapsBefore(s, key, i) <= ComparisonsBefore(|s|, i)
    decreases i
  {
    if i > 0 {
      var h := i - 1;
      SwapsAtMostComparisons(s, key, h);
      assert PassSwaps(Passes(s, key, h), key, |s| - i) <= |s| - i;
    }
  }

  /** The number of index pairs p < q below n: one comparison per pair. */
  function PairCount(n: nat): nat
  {
    if n == 0 then 0 else PairCount(n - 1) + (n - 1)
  }

  /**
   * Pass p makes n - p - 1 comparisons, one per pair of cells it compares, so
   * the first i passes compare exactly the pairs not lying within the first
   * n - i cells.
   */
  lemma {:induction false} ComparisonsCountPairs(n: nat, i: nat)
    requires i <= n
    ensures ComparisonsBefore(n, i) + PairCount(n - i) == PairCount(n)
  {
    if i > 0 {
      var h := i - 1;
      ComparisonsCountPairs(n, h);
      var m := n - i;
      assert PairCount(m + 1) == PairCount(m) + m;
      assert m + 1 == n - h;
    }
  }

  /** There are n(n - 1)/2 such pairs. */
  lemma {:induction false} PairCountClosedForm(n: nat)
    ensures PairCount(n) == n * (n - 1) / 2
  {
    if n > 0 {
      PairCountClosedForm(n - 1);
      assert (n - 1) * (n - 2) + 2 * (n - 1) == n * (n - 1);
    }
  }

  /** A full run over n elements compares every pair once: n(n - 1)/2 comparisons. */
  lemma TotalComparisons(n: nat, i: nat)
    requires n >= 1 && i == n - 1
    ensures ComparisonsBefore(n, i) == PairCount(n) == n * (n - 1) / 2
  {
    ComparisonsCountPairs(n, i);
    assert PairCount(1) == 0;
    PairCountClosedForm(n);
  }

  /** A pass carries the largest of s[..j + 1] to position j and leaves the cells after j alone. */
  lemma {:induction false} PassCarriesMaximum<T>(s: seq<T>, key: T -> int, j: nat)
    requires j < |s|
    ensures forall q :: 0 <= q < j ==> key(Pass(s, key, j)[q]) <= key(Pass(s, key, j)[j])
    ensures forall q :: j < q < |s| ==> Pass(s, key, j)[q] == s[q]
    decreases j
  {
    if j > 0 {
      var t := Pass(s, key, j - 1);
      PassCarriesMaximum(s, key, j - 1);
      var r := Pass(s, key, j);
      assert r == CompareSwap(t, key, j - 1);
      forall q | 0 <= q < j ensures key(r[q]) <= key(r[j]) {
        if q < j - 1 {
          assert r[q] == t[q];
          assert key(t[q]) <= key(t[j - 1]);
          if key(t[j - 1]) > key(t[j]) {
            assert r[j] == t[j - 1];
          } else {
            assert r[j] == t[j];
          }
        }
      }
    }
  }

  /** A pass never raises a key of s[..j + 1] above a bound that held for all of them. */
  lemma {:induction false} PassKeepsUpperBound<T>(s: seq<T>, key: T -> int, j: nat, b: int)
    requires j < |s|
    requires forall q :: 0 <= q <= j ==> key(s[q]) <= b
    ensures forall q :: 0 <= q <= j ==> key(Pass(s, key, j)[q]) <= b
    decreases j
  {
    if j > 0 {
      var t := Pass(s, key, j - 1);
      PassCarriesMaximum(s, key, j - 1);
      PassKeepsUpperBound(s, key, j - 1, b);
      assert t[j] == s[j];
      var r := Pass(s, key, j);
      assert r == CompareSwap(t, key, j - 1);
      forall q | 0 <= q <= j ensures key(r[q]) <= b {
        if q < j - 1 {
          assert r[q] == t[q];
        } else if key(t[j - 1]) > key(t[j]) {
          assert r[j - 1] == t[j] && r[j] == t[j - 1];
        }
      }
    }
  }

  /** The cells from `m` on are in order. */
  ghost predicate SortedFrom<T>(r: seq<T>, key: T -> int, m: nat) {
    forall p, q :: m <= p < q < |r| ==> key(r[p]) <= key(r[q])
  }

  /** No cell before `m` has a larger key than a cell from `m` on. */
  ghost predicate SplitAt<T>(r: seq<T>, key: T -> int, m: nat) {
    forall p, q :: 0 <= p < m <= q < |r| ==> key(r[p]) <= key(r[q])
  }

  /** A pass bounded by m extends a sorted, dominating suffix from m + 1 down to m. */
  lemma PassExtendsSortedSuffix<T>(t: seq<T>, key: T -> int, m: nat)
    requires m < |t| && SortedFrom(t, key, m + 1) && SplitAt(t, key, m + 1)
    ensures SortedFrom(Pass(t, key, m), key, m) && SplitAt(Pass(t, key, m), key, m)
  {
    var r := Pass(t, key, m);
    PassCarriesMaximum(t, key, m);
    forall p, q | 0 <= p < m <= q < |t| ensures key(r[p]) <= key(r[q]) {
      if q > m {
        PassKeepsUpperBound(t, key, m, key(t[q]));
      }
    }
    forall p, q | m <= p < q < |t| ensures key(r[p]) <= key(r[q]) {
      if p == m {
        PassKeepsUpperBound(t, key, m, key(t[q]));
      }
    }
  }

  /**
   * After i passes the last i cells hold the i largest keys in order: the
   * suffix from |s| - i is sorted, and nothing before it has a larger key.
   */
  lemma {:induction false} PassesBuildSortedSuffix<T>(s: seq<T>, key: T -> int, i: nat)
    requires i < |s|
    ensures SortedFrom(Passes(s, key, i), key, |s| - i)
    ensures SplitAt(Passes(s, key, i), key, |s| - i)
    decreases i
  {
    if i > 0 {
      PassesBuildSortedSuffix(s, key, i - 1);
      PassExtendsSortedSuffix(Passes(s, key, i - 1), key, |s| - i);
    }
  }

  /** When bubbleSort runs to completion the result is sorted. */
  lemma BubbleSortSorted<T>(s: seq<T>, key: T -> int)
    ensures SortedBy(BubbleSortBy(s, key), key)
  {
    if |s| > 0 {
      PassesBuildSortedSuffix(s, key, |s| - 1);
    }
  }

  /** Equal keys never cross in a pass: bubble sort is stable. */
  lemma {:induction false} PassKeepsOrderPerKey<T>(s: seq<T>, key: T -> int, j: nat)
    requires j < |s|
    ensures SameOrderPerKey(Pass(s, key, j), s, key)
    decreases j
  {
    if j > 0 {
      var t := Pass(s, key, j - 1);
      PassKeepsOrderPerKey(s, key, j - 1);
      if key(t[j - 1]) > key(t[j]) {
        SwapNeighboursKeepsOrderPerKey(t, key, j - 1);
      }
    }
  }

  lemma {:induction false} PassesKeepOrderPerKey<T>(s: seq<T>, key: T -> int, i: nat)
    requires i < |s|
    ensures SameOrderPerKey(Passes(s, key, i), s, key)
    decreases i
  {
    if i > 0 {
      PassesKeepOrderPerKey(s, key, i - 1);
      PassKeepsOrderPerKey(Passes(s, key, i - 1), key, |s| - i);
    }
  }

  /** bubbleSort is stable: for every key, equal elements keep their input order. */
  lemma BubbleSortStable<T>(s: seq<T>, key: T -> int)
    ensures SameOrderPerKey(BubbleSortBy(s, key), s, key)
  {
    if |s| > 0 {
      PassesKeepOrderPerKey(s, key, |s| - 1);
    }
  }

  /** On an input that is already sorted no comparison exchanges anything. */
  lemma {:induction false} PassOnSortedIsIdentity<T>(s: seq<T>, key: T -> int, j: nat)
    requires j < |s| && SortedBy(s, key)
    ensures Pass(s, key, j) == s && PassSwaps(s, key, j) == 0
    decreases j
  {
    if j > 0 {
      PassOnSortedIsIdentity(s, key, j - 1);
      assert key(s[j - 1]) <= key(s[j]);
    }
  }

  /** On a sorted input the passes change nothing and make no exchange. */
  lemma {:induction false} PassesOnSortedIsIdentity<T>(s: seq<T>, key: T -> int, i: nat)
    requires i < |s| && SortedBy(s, key)
    ensures Passes(s, key, i) == s && SwapsBefore(s, key, i) == 0
    decreases i
  {
    if i > 0 {
      PassesOnSortedIsIdentity(s, key, i - 1);
      PassOnSortedIsIdentity(s, key, |s| - i);
    }
  }
}
