/**
 * The sort engine of the visualizer: the shared integer array, the
 * `isSorting` flag that guards a run and that the loops poll to stop early,
 * and the five sorting routines working on the array in place.
 *
 * Every `await sleep(...)` of the source is a call of Pause, the one point
 * where other code (the Generate handler clearing the flag) may run. The
 * DOM updates between the steps only render the array and are not modelled.
 */
module Engine {
  import opened SortBasics
  import opened Ranges
  import opened BubbleModel
  import opened SelectionModel
  import opened InsertionModel
  import opened MergeModel
  import opened QuickModel

  /** The five buttons that start a run. */
  datatype Algorithm = Bubble | Selection | Insertion | Merge | Quick

  /**
   * What a run of `alg` that is not cancelled makes of the array s (the
   * choice of sort function by the button clicked). Every one of the five
   * sorts leaves a sorted permutation of s.
   */
  ghost function SortOf(alg: Algorithm, s: seq<int>): (r: seq<int>)
    ensures SortedBy(r, Identity) && multiset(r) == multiset(s)
  {
    match alg
    case Bubble =>
      BubbleSortSorted(s, Identity);
      if |s| > 0 then PassesPermute(s, Identity, |s| - 1); BubbleSortBy(s, Identity) else BubbleSortBy(s, Identity)
    case Selection =>
      SelectionSortSorted(s, Identity);
      SelectionsPermute(s, Identity, |s|);
      SelectionSortBy(s, Identity)
    case Insertion =>
      InsertionSortSorted(s, Identity);
      InsertionsPermute(s, Identity, |s|);
      InsertionSortBy(s, Identity)
    case Merge =>
      MergeSortSorted(s, Identity);
      MergeSortPermutes(s, Identity);
      MergeSortBy(s, Identity)
    case Quick =>
      QuickSortSorted(s, Identity);
      QuickSortPermutes(s, Identity);
      QuickSortBy(s, Identity)
  }

  /**
   * What bubbleSort leaves behind when it ran the passes 0 .. i - 1 and, if
   * it was stopped, the first `cut` comparisons of pass i.
   */
  lemma BubbleOutcome(s: seq<int>, r: seq<int>, i: nat, stopped: bool, cut: nat, comparisons: nat, swaps: nat)
    requires 0 < |s| && i < |s|
    requires stopped ==> cut <= |s| - i - 1
    requires !stopped ==> i == |s| - 1
    requires r == if stopped then Pass(Passes(s, Identity, i), Identity, cut) else Passes(s, Identity, i)
    requires comparisons == ComparisonsBefore(|s|, i) + if stopped then cut else 0
    requires swaps == SwapsBefore(s, Identity, i) + if stopped then PassSwaps(Passes(s, Identity, i), Identity, cut) else 0
    ensures multiset(r) == multiset(s)
    ensures !stopped ==> r == BubbleSortBy(s, Identity) && SortedBy(r, Identity)
    ensures !stopped ==> comparisons == PairCount(|s|)
    ensures SortedBy(s, Identity) ==> r == s && swaps == 0
    ensures swaps <= comparisons
  {
    PassesPermute(s, Identity, i);
    SwapsWithinComparisons(s, i, stopped, cut, comparisons, swaps);
    if stopped {
      PassPermutes(Passes(s, Identity, i), Identity, cut);
    }
    if SortedBy(s, Identity) {
      PassesOnSortedIsIdentity(s, Identity, i);
      if stopped {
        PassOnSortedIsIdentity(s, Identity, cut);
      }
    }
    if !stopped {
      BubbleSortSorted(s, Identity);
      TotalComparisons(|s|, i);
    }
  }

  /** The counts bubbleSort keeps: never more exchanges than comparisons. */
  lemma SwapsWithinComparisons(s: seq<int>, i: nat, stopped: bool, cut: nat, comparisons: nat, swaps: nat)
    requires 0 < |s| && i < |s| && (stopped ==> cut <= |s| - i - 1)
    requires comparisons == ComparisonsBefore(|s|, i) + if stopped then cut else 0
    requires swaps == SwapsBefore(s, Identity, i) + if stopped then PassSwaps(Passes(s, Identity, i), Identity, cut) else 0
    ensures swaps <= comparisons
  {
    SwapsAtMostComparisons(s, Identity, i);
  }

  /** What selectionSort leaves behind when it ran outer iterations 0 .. i - 1. */
  lemma SelectionOutcome(s: seq<int>, r: seq<int>, i: nat, stopped: bool)
    requires i <= |s| && (!stopped ==> i == |s|)
    requires r == Selections(s, Identity, i)
    ensures multiset(r) == multiset(s)
    ensures !stopped ==> r == SelectionSortBy(s, Identity) && SortedBy(r, Identity)
    ensures SortedBy(s, Identity) ==> r == s
  {
    SelectionsPermute(s, Identity, i);
    if SortedBy(s, Identity) {
      SelectionsOnSortedIsIdentity(s, Identity, i);
    }
    if !stopped {
      SelectionSortSorted(s, Identity);
    }
  }

  /** ShiftedPlace for the bar heights, ordered by value. */
  lemma PlaceKey(t: seq<int>, i: nat, k: nat)
    requires k <= i < |t|
    requires k == 0 || t[k - 1] <= t[i]
    requires forall q :: k <= q < i ==> t[i] < t[q]
    ensures Shifted(t, i, k)[k := t[i]] == Insert(t[..i], Identity, t[i]) + t[i + 1..]
  {
    ShiftedPlace(t, i, k, Identity);
  }

  /**
   * `merge` of the copies `left` and `right` into the range from `start` of
   * the array s0, after i cells of `left` and j of `right` were written: the
   * first i + j cells of the range hold the start of the merge, the rest of
   * the merge is the merge of what remains, and every other cell is as in s0.
   */
  ghost predicate MergeProgress(a: seq<int>, s0: seq<int>, start: nat, left: seq<int>, right: seq<int>, i: nat, j: nat)
  {
    && |a| == |s0| && start + |left| + |right| <= |s0| && i <= |left| && j <= |right|
    && MergeBy(left, right, Identity)[i + j..] == MergeBy(left[i..], right[j..], Identity)
    && forall q :: 0 <= q < |a| ==>
         a[q] == if start <= q < start + i + j then MergeBy(left, right, Identity)[q - start] else s0[q]
  }

  /**
   * Writing the left head next keeps MergeProgress. The advanced index i' is
   * a separate argument equal to i + 1, so the caller passes the variable it
   * assigns next rather than an expression the solver must unfold.
   */
  lemma MergeTakeLeft(a: seq<int>, s0: seq<int>, start: nat, left: seq<int>, right: seq<int>, i: nat, j: nat, k: nat, i': nat)
    requires MergeProgress(a, s0, start, left, right, i, j) && k == start + i + j && i' == i + 1
    requires i < |left| && (j == |right| || left[i] <= right[j])
    ensures MergeProgress(a[k := left[i]], s0, start, left, right, i', j)
  {
    var m, a' := MergeBy(left, right, Identity), a[k := left[i]];
    MergeNext(m, left, right, Identity, i, j);
    assert m[i' + j..] == MergeBy(left[i'..], right[j..], Identity);
    forall q | 0 <= q < |a'| ensures a'[q] == if start <= q < start + i' + j then m[q - start] else s0[q] {
      if q != k {
        assert a'[q] == a[q];
      }
    }
  }

  /**
   * Writing the right head next keeps MergeProgress. The advanced index j' is
   * a separate argument equal to j + 1, for the same reason as in
   * MergeTakeLeft.
   */
  lemma MergeTakeRight(a: seq<int>, s0: seq<int>, start: nat, left: seq<int>, right: seq<int>, i: nat, j: nat, k: nat, j': nat)
    requires MergeProgress(a, s0, start, left, right, i, j) && k == start + i + j && j' == j + 1
    requires j < |right| && (i == |left| || right[j] < left[i])
    ensures MergeProgress(a[k := right[j]], s0, start, left, right, i, j')
  {
    var m, a' := MergeBy(left, right, Identity), a[k := right[j]];
    MergeNext(m, left, right, Identity, i, j);
    assert m[i + j'..] == MergeBy(left[i..], right[j'..], Identity);
    forall q | 0 <= q < |a'| ensures a'[q] == if start <= q < start + i + j' then m[q - start] else s0[q] {
      if q != k {
        assert a'[q] == a[q];
      }
    }
  }

  /**
   * Step x of the loop of `partition` over the range r = s0[low..high], with
   * d the array so far and j = low + x the cell compared with the pivot
   * s0[high], when d[j] is smaller: the loop exchanges cell j with cell i,
   * the first cell after the smaller part, as LomutoScan does.
   */
  lemma PartitionTake(s0: seq<int>, r: seq<int>, d: seq<int>, t: seq<int>, low: nat, high: nat, x: nat, b: nat, i: nat, j: nat)
    requires low <= j < high < |s0| && r == s0[low..high + 1] && j == low + x && i == low + b
    requires t == LomutoScan(r, Identity, x).0 && b == LomutoScan(r, Identity, x).1 && d == Splice(s0, low, t)
    requires d[j] < s0[high]
    ensures i <= j
    ensures Swap(d, i, j) == Splice(s0, low, LomutoScan(r, Identity, x + 1).0) && LomutoScan(r, Identity, x + 1).1 == b + 1
  {
    ScanNext(r, Identity, x);
    SpliceAt(s0, low, t, j);
    assert r[|r| - 1] == s0[high];
    SpliceSwap(s0, low, t, b, x, i, j);
  }

  /** The same step when d[j] is not smaller than the pivot: nothing moves. */
  lemma PartitionSkip(s0: seq<int>, r: seq<int>, d: seq<int>, t: seq<int>, low: nat, high: nat, x: nat, b: nat, j: nat)
    requires low <= j < high < |s0| && r == s0[low..high + 1] && j == low + x
    requires t == LomutoScan(r, Identity, x).0 && b == LomutoScan(r, Identity, x).1 && d == Splice(s0, low, t)
    requires s0[high] <= d[j]
    ensures d == Splice(s0, low, LomutoScan(r, Identity, x + 1).0) && LomutoScan(r, Identity, x + 1).1 == b
  {
    ScanNext(r, Identity, x);
    SpliceAt(s0, low, t, j);
    assert r[|r| - 1] == s0[high];
  }

  /**
   * `quickSort` over the range r = s0[lo..hi], partitioned into t with the
   * pivot placed at p: sorting the cells before p (x1) and then those from
   * q = p + 1 on (x2) gives the range's quick sort. The indices the caller
   * already holds (pm = p - 1, the source's `pi - 1`, and q and high) are passed as separate arguments, so
   * no arithmetic on them is left for the solver inside the caller's proof.
   */
  lemma QuickSortComposes(s0: seq<int>, d1: seq<int>, d2: seq<int>, d3: seq<int>, lo: nat, pm: int, p: nat, q: nat, high: nat,
                          r: seq<int>, t: seq<int>, x1: seq<int>, x2: seq<int>)
    requires high + 1 == lo + |r| <= |s0| && 2 <= |r|
    requires t == PartitionBy(r, Identity).0 && p == lo + PartitionBy(r, Identity).1 && pm + 1 == p && q == p + 1
    requires d1 == Splice(s0, lo, t)
    requires x1 == d1[lo..pm + 1] && d2 == Splice(d1, lo, QuickSortBy(x1, Identity))
    requires x2 == d2[q..high + 1] && d3 == Splice(d2, q, QuickSortBy(x2, Identity))
    ensures d3 == Splice(s0, lo, QuickSortBy(r, Identity))
  {
    var hi := high + 1;
    SameEnd(d1, lo, pm, p);
    SameEnd(d2, q, high, hi);
    PivotCompose(s0, d1, d2, d3, lo, p, q, hi, r, t, x1, x2);
  }

  /**
   * QuickSortComposes with the range written lo .. hi - 1 and the left side
   * ending before p; a separate lemma so that each proof sees one form of
   * the bounds.
   */
  lemma PivotCompose(s0: seq<int>, d1: seq<int>, d2: seq<int>, d3: seq<int>, lo: nat, p: nat, q: nat, hi: nat,
                     r: seq<int>, t: seq<int>, x1: seq<int>, x2: seq<int>)
    requires hi == lo + |r| <= |s0| && 2 <= |r|
    requires t == PartitionBy(r, Identity).0 && p == lo + PartitionBy(r, Identity).1 && q == p + 1
    requires d1 == Splice(s0, lo, t)
    requires x1 == d1[lo..p] && d2 == Splice(d1, lo, QuickSortBy(x1, Identity))
    requires x2 == d2[q..hi] && d3 == Splice(d2, q, QuickSortBy(x2, Identity))
    ensures d3 == Splice(s0, lo, QuickSortBy(r, Identity))
  {
    var b := PartitionBy(r, Identity).1;
    SpliceAroundPivot(s0, d1, d2, d3, lo, p, q, hi, t, b, QuickSortBy(x1, Identity), QuickSortBy(x2, Identity));
    QuickSortUnfold(r, Identity, t, b, x1, x2);
  }

  /** A range r = s0[low..high] of at most one cell is left as it is by quickSort and by mergeSort. */
  lemma ShortRangeStays(s0: seq<int>, low: nat, high: int, r: seq<int>)
    requires low <= high + 1 <= |s0| && high <= low && r == s0[low..high + 1]
    ensures s0 == Splice(s0, low, QuickSortBy(r, Identity))
    ensures s0 == Splice(s0, low, MergeSortBy(r, Identity))
  {
    assert QuickSortBy(r, Identity) == r && MergeSortBy(r, Identity) == r;
    SpliceOwnRange(s0, low, high + 1);
  }

  /**
   * `mergeSort` over the range r = s0[lo..end] split after mid: sorting the
   * left half x1, then the right half x2 (from m = mid + 1 on) as the first
   * call left it, then merging the halves y1 and y2 as they then stand gives
   * the range's merge sort. The indices the caller already holds (mid, m,
   * end) are passed as separate arguments, so no arithmetic on them is left
   * for the solver inside the caller's proof.
   */
  lemma MergeSortComposes(s0: seq<int>, d1: seq<int>, d2: seq<int>, d3: seq<int>, lo: nat, mid: nat, m: nat, end: nat,
                          r: seq<int>, x1: seq<int>, x2: seq<int>, y1: seq<int>, y2: seq<int>)
    requires lo <= mid < end < |s0| && mid == (lo + end) / 2 && m == mid + 1
    requires r == s0[lo..end + 1] && x1 == s0[lo..mid + 1] && d1 == Splice(s0, lo, MergeSortBy(x1, Identity))
    requires x2 == d1[m..end + 1] && d2 == Splice(d1, m, MergeSortBy(x2, Identity))
    requires y1 == d2[lo..mid + 1] && y2 == d2[mid + 1..end + 1] && d3 == Splice(d2, lo, MergeBy(y1, y2, Identity))
    ensures d3 == Splice(s0, lo, MergeSortBy(r, Identity))
  {
    var hi := end + 1;
    MidIsLeftHalf(lo, mid, m, end, hi);
    SameSlices(s0, d1, d2, lo, mid, m, end, hi);
    HalvesCompose(s0, d1, d2, d3, lo, m, hi, r, x1, x2, y1, y2);
  }

  /**
   * MergeSortComposes with the range written lo .. hi - 1 and the right half
   * starting at m; a separate lemma so that each proof sees one form of the
   * bounds.
   */
  lemma HalvesCompose(s0: seq<int>, d1: seq<int>, d2: seq<int>, d3: seq<int>, lo: nat, m: nat, hi: nat,
                      r: seq<int>, x1: seq<int>, x2: seq<int>, y1: seq<int>, y2: seq<int>)
    requires lo < m < hi <= |s0| && LeftHalf(hi - lo) == m - lo
    requires r == s0[lo..hi] && x1 == s0[lo..m] && d1 == Splice(s0, lo, MergeSortBy(x1, Identity))
    requires x2 == d1[m..hi] && d2 == Splice(d1, m, MergeSortBy(x2, Identity))
    requires y1 == d2[lo..m] && y2 == d2[m..hi] && d3 == Splice(d2, lo, MergeBy(y1, y2, Identity))
    ensures d3 == Splice(s0, lo, MergeSortBy(r, Identity))
  {
    SpliceHalves(s0, d1, d2, d3, lo, m, hi, MergeSortBy(x1, Identity), MergeSortBy(x2, Identity), MergeBy(y1, y2, Identity));
    MergeSortSplitAt(s0, Identity, lo, m, hi, r, x1, x2);
  }

  /**
   * A slice ending after cell e, written with hi = e + 1. It only restates
   * the bound, so that the composition lemmas can switch between the
   * source's inclusive ends and Dafny's exclusive ones in one cheap step.
   */
  lemma SameEnd(d: seq<int>, lo: nat, e: int, hi: nat)
    requires lo <= hi <= |d| && e + 1 == hi
    ensures d[lo..e + 1] == d[lo..hi]
  {
  }

  /**
   * The slices of SortHalvesAndMerge, written with m = mid + 1 and
   * hi = end + 1; like SameEnd, a one-step change of bounds kept apart to
   * keep the composition proof cheap.
   */
  lemma SameSlices(s0: seq<int>, d1: seq<int>, d2: seq<int>, lo: nat, mid: nat, m: nat, end: nat, hi: nat)
    requires lo <= mid < end < |s0| == |d1| == |d2| && m == mid + 1 && hi == end + 1
    ensures s0[lo..end + 1] == s0[lo..hi] && s0[lo..mid + 1] == s0[lo..m]
    ensures d1[m..end + 1] == d1[m..hi] && d2[lo..mid + 1] == d2[lo..m] && d2[mid + 1..end + 1] == d2[m..hi]
  {
  }

  /**
   * The `mid` of `mergeSort` ends the left half that MergeSortBy splits off;
   * the bounds m and hi come in as plain variables, as in SameSlices.
   */
  lemma MidIsLeftHalf(lo: nat, mid: nat, m: nat, end: nat, hi: nat)
    requires lo <= mid < end && mid == (lo + end) / 2 && m == mid + 1 && hi == end + 1
    ensures LeftHalf(hi - lo) == m - lo
  {
  }

  /** A finished `mergeSort` over the whole array, 0 .. last, sorts it and keeps its elements. */
  lemma MergeSortOutcome(s: seq<int>, last: int, x: seq<int>, r: seq<int>)
    requires last + 1 == |s| && x == s[0..last + 1] && r == Splice(s, 0, MergeSortBy(x, Identity))
    ensures r == MergeSortBy(s, Identity) && SortedBy(r, Identity) && multiset(r) == multiset(s)
  {
    assert x == s;
    SpliceWhole(s, MergeSortBy(s, Identity));
    MergeSortSorted(s, Identity);
    MergeSortPermutes(s, Identity);
  }

  /** A finished `quickSort` over the whole array, 0 .. last, sorts it and keeps its elements. */
  lemma QuickSortOutcome(s: seq<int>, last: int, x: seq<int>, r: seq<int>)
    requires last + 1 == |s| && x == s[0..last + 1] && r == Splice(s, 0, QuickSortBy(x, Identity))
    ensures r == QuickSortBy(s, Identity) && SortedBy(r, Identity) && multiset(r) == multiset(s)
  {
    assert x == s;
    SpliceWhole(s, QuickSortBy(s, Identity));
    QuickSortSorted(s, Identity);
    QuickSortPermutes(s, Identity);
  }

  class Visualizer {
    /** The bar heights (the source's global `array`). */
    var data: array<int>
    /** Set while a run is in progress; clearing it asks the run to stop. */
    var isSorting: bool
    /**
     * Whether the user may press Generate while a run is in progress, which
     * is the only way the flag is cleared during a run. The user's choice is
     * an input of the model (the page has no such variable), fixed when the
     * page is built.
     */
    var mayCancel: bool

    /** The page before the first array is generated; `cancels` says whether the user may cancel runs. */
    constructor (cancels: bool)
      ensures data.Length == 0 && !isSorting && mayCancel == cancels
    {
      data := new int[0];
      isSorting := false;
      mayCancel := cancels;
    }

    /**
     * An `await sleep(...)`: while the run waits, a cancellation may clear
     * the flag, if the user may cancel at all. Nothing can set it, and the
     * array is not touched.
     */
    method Pause()
      modifies this`isSorting
      ensures isSorting ==> old(isSorting)
      ensures !mayCancel ==> isSorting == old(isSorting)
    {
      var cancelled: bool := *;
      if cancelled && mayCancel {
        isSorting := false;
      }
    }

    /**
     * `bubbleSort`. A run that is not cancelled leaves the array sorted after
     * one comparison per pair of cells (n(n - 1)/2, by TotalComparisons); a cancelled run leaves a permutation of
     * the input; a sorted input sees no exchange at all.
     */
    method BubbleSort() returns (ghost finished: bool, ghost comparisons: nat, ghost swaps: nat)
      modifies data, this`isSorting
      ensures isSorting ==> old(isSorting)
      ensures !mayCancel ==> isSorting == old(isSorting)
      ensures !finished ==> !isSorting
      ensures !mayCancel && old(isSorting) ==> finished
      ensures multiset(data[..]) == multiset(old(data[..]))
      ensures finished ==> data[..] == BubbleSortBy(old(data[..]), Identity) && SortedBy(data[..], Identity)
      ensures finished ==> comparisons == PairCount(data.Length)
      ensures SortedBy(old(data[..]), Identity) ==> data[..] == old(data[..]) && swaps == 0
      ensures swaps <= comparisons
    {
      ghost var s0 := data[..];
      var stopped;
      ghost var i, cut;
      stopped, i, cut, comparisons, swaps := BubblePasses();
      if data.Length > 0 {
        BubbleOutcome(s0, data[..], i, stopped, cut, comparisons, swaps);
      }
      finished := !stopped;
    }

    /**
     * The outer loop of `bubbleSort`: passes 0 .. n - 2, stopping inside pass
     * i after `cut` comparisons when the flag is found cleared.
     */
    method BubblePasses() returns (stopped: bool, ghost i: nat, ghost cut: nat, ghost comparisons: nat, ghost swaps: nat)
      modifies data, this`isSorting
      ensures isSorting ==> old(isSorting)
      ensures !mayCancel ==> isSorting == old(isSorting)
      ensures stopped ==> !isSorting
      ensures data.Length == 0 ==> !stopped && data[..] == old(data[..]) && comparisons == 0 && swaps == 0
      ensures data.Length > 0 ==>
        && i < data.Length
        && (stopped ==> cut <= data.Length - i - 1)
        && (!stopped ==> i == data.Length - 1)
        && data[..] == (if stopped then Pass(Passes(old(data[..]), Identity, i), Identity, cut) else Passes(old(data[..]), Identity, i))
        && comparisons == ComparisonsBefore(data.Length, i) + (if stopped then cut else 0)
        && swaps == SwapsBefore(old(data[..]), Identity, i) + (if stopped then PassSwaps(Passes(old(data[..]), Identity, i), Identity, cut) else 0)
    {
      ghost var s0 := data[..];
      var n := data.Length;
      stopped, i, cut, comparisons, swaps := false, 0, 0, 0, 0;
      if n == 0 {
        return;
      }
      var pass := 0;
      while pass < n - 1
        invariant i == pass < n
        invariant data[..] == Passes(s0, Identity, pass) && swaps == SwapsBefore(s0, Identity, pass)
        invariant comparisons == ComparisonsBefore(n, pass)
        invariant isSorting ==> old(isSorting)
        invariant !mayCancel ==> isSorting == old(isSorting)
      {
        ghost var c: nat, sw: nat;
        var next := pass + 1;
        PassesNext(s0, Identity, pass, next);
        stopped, c, sw := BubblePass(pass);
        comparisons, swaps := comparisons + c, swaps + sw;
        if stopped {
          cut := c;
          return;
        }
        pass := next;
        i := pass;
      }
    }

    /**
     * Pass i of `bubbleSort` (its inner loop): compare the neighbours
     * (j, j + 1) for j = 0 .. n - i - 2 and exchange them when the left one is
     * strictly greater, stopping as soon as the flag is found cleared. The
     * array afterwards is the pass cut off after the comparisons made.
     */
    method BubblePass(i: nat) returns (stopped: bool, ghost comparisons: nat, ghost swaps: nat)
      requires i + 1 < data.Length
      modifies data, this`isSorting
      ensures isSorting ==> old(isSorting)
      ensures !mayCancel ==> isSorting == old(isSorting)
      ensures comparisons <= data.Length - i - 1
      ensures data[..] == Pass(old(data[..]), Identity, comparisons)
      ensures swaps == PassSwaps(old(data[..]), Identity, comparisons)
      ensures stopped ==> !isSorting
      ensures !stopped ==> comparisons == data.Length - i - 1
    {
      ghost var p := data[..];
      var n := data.Length;
      stopped, comparisons, swaps := false, 0, 0;
      var j := 0;
      while j < n - i - 1
        invariant 0 <= j <= n - i - 1 && comparisons == j
        invariant data[..] == Pass(p, Identity, j)
        invariant swaps == PassSwaps(p, Identity, j)
        invariant isSorting ==> old(isSorting)
        invariant !mayCancel ==> isSorting == old(isSorting)
      {
        if !isSorting {
          return true, comparisons, swaps;
        }
        Pause();
        comparisons := comparisons + 1;
        var next := j + 1;
        PassStep(p, Identity, j, next);
        var exchanged := CompareNeighbours(j);
        if exchanged {
          swaps := swaps + 1;
        }
        j := next;
      }
    }

    /** One comparison of `bubbleSort`: the neighbours (j, j + 1) are exchanged when the left one is strictly greater. */
    method CompareNeighbours(j: nat) returns (exchanged: bool)
      requires j + 1 < data.Length
      modifies data
      ensures exchanged == (old(data[j]) > old(data[j + 1]))
      ensures data[..] == CompareSwap(old(data[..]), Identity, j)
    {
      if data[j] > data[j + 1] {
        data[j], data[j + 1] := data[j + 1], data[j];
        exchanged := true;
      } else {
        exchanged := false;
      }
    }
  
    /**
     * `selectionSort`. A run that is not cancelled leaves the array sorted;
     * a cancelled run stops between exchanges and so leaves a permutation.
     */
    method SelectionSort() returns (ghost finished: bool)
      modifies data, this`isSorting
      ensures isSorting ==> old(isSorting)
      ensures !mayCancel ==> isSorting == old(isSorting)
      ensures !finished ==> !isSorting
      ensures !mayCancel && old(isSorting) ==> finished
      ensures multiset(data[..]) == multiset(old(data[..]))
      ensures finished ==> data[..] == SelectionSortBy(old(data[..]), Identity) && SortedBy(data[..], Identity)
      ensures SortedBy(old(data[..]), Identity) ==> data[..] == old(data[..])
    {
      ghost var s0 := data[..];
      var stopped;
      ghost var i;
      stopped, i := SelectionPasses();
      SelectionOutcome(s0, data[..], i, stopped);
      finished := !stopped;
    }

    /** The outer loop of `selectionSort`, stopping before outer iteration i when the flag is found cleared. */
    method SelectionPasses() returns (stopped: bool, ghost i: nat)
      modifies data, this`isSorting
      ensures isSorting ==> old(isSorting)
      ensures !mayCancel ==> isSorting == old(isSorting)
      ensures stopped ==> !isSorting
      ensures i <= data.Length && (!stopped ==> i == data.Length)
      ensures data[..] == Selections(old(data[..]), Identity, i)
    {
      ghost var s0 := data[..];
      var n := data.Length;
      stopped, i := false, 0;
      var pos := 0;
      while pos < n
        invariant i == pos <= n
        invariant data[..] == Selections(s0, Identity, pos)
        invariant isSorting ==> old(isSorting)
        invariant !mayCancel ==> isSorting == old(isSorting)
      {
        if !isSorting {
          return true, pos;
        }
        stopped := SelectPosition(pos);
        if stopped {
          return true, pos;
        }
        pos := pos + 1;
        i := pos;
      }
    }

    /**
     * Outer iteration i of `selectionSort`: find the first minimum of the
     * cells i .. n - 1 and exchange it into cell i when it is not there yet.
     */
    method SelectPosition(i: nat) returns (stopped: bool)
      requires i < data.Length
      modifies data, this`isSorting
      ensures isSorting ==> old(isSorting)
      ensures !mayCancel ==> isSorting == old(isSorting)
      ensures stopped ==> !isSorting && data[..] == old(data[..])
      ensures !stopped ==> data[..] == SelectStep(old(data[..]), Identity, i)
    {
      ghost var t := data[..];
      var minIdx;
      stopped, minIdx := ScanForMinimum(i);
      if stopped {
        return;
      }
      if minIdx != i {
        data[i], data[minIdx] := data[minIdx], data[i];
        Pause();
      }
      assert data[..] == SelectStep(t, Identity, i);
    }

    /**
     * The inner loop of `selectionSort` for position i: the index of the first
     * minimum of the cells i .. n - 1, unless the run is stopped first.
     */
    method ScanForMinimum(i: nat) returns (stopped: bool, minIdx: nat)
      requires i < data.Length
      modifies this`isSorting
      ensures isSorting ==> old(isSorting)
      ensures !mayCancel ==> isSorting == old(isSorting)
      ensures stopped ==> !isSorting
      ensures !stopped ==> minIdx == ScanMin(data[..], Identity, i, data.Length)
      ensures !stopped ==>
        && i <= minIdx < data.Length
        && (forall q :: i <= q < data.Length ==> data[minIdx] <= data[q])
        && (forall q :: i <= q < minIdx ==> data[minIdx] < data[q])
    {
      minIdx := i;
      stopped := false;
      var j := i + 1;
      while j < data.Length
        invariant i + 1 <= j <= data.Length
        invariant minIdx == ScanMin(data[..], Identity, i, j)
        invariant isSorting ==> old(isSorting)
        invariant !mayCancel ==> isSorting == old(isSorting)
      {
        if !isSorting {
          return true, minIdx;
        }
        Pause();
        if data[j] < data[minIdx] {
          minIdx := j;
        }
        j := j + 1;
      }
      ScanMinIsFirstMinimum(data[..], Identity, i, data.Length);
    }
  
    /**
     * `insertionSort`. A run that is not cancelled leaves the array sorted,
     * holding the same elements, with equal values in their input order
     * (InsertionSortStable). A run cancelled in the middle of a shift may
     * leave one value doubled, so nothing is promised about it.
     */
    method InsertionSort() returns (ghost finished: bool)
      modifies data, this`isSorting
      ensures isSorting ==> old(isSorting)
      ensures !mayCancel ==> isSorting == old(isSorting)
      ensures !finished ==> !isSorting
      ensures !mayCancel && old(isSorting) ==> finished
      ensures finished ==> data[..] == InsertionSortBy(old(data[..]), Identity)
      ensures finished ==> SortedBy(data[..], Identity) && multiset(data[..]) == multiset(old(data[..]))
      ensures SortedBy(old(data[..]), Identity) ==> data[..] == old(data[..])
    {
      ghost var s0 := data[..];
      var stopped := InsertionPasses();
      if !stopped {
        InsertionSortSorted(s0, Identity);
        InsertionsPermute(s0, Identity, |s0|);
      }
      finished := !stopped;
    }

    /** The outer loop of `insertionSort`, for i = 1 .. n - 1. */
    method InsertionPasses() returns (stopped: bool)
      modifies data, this`isSorting
      ensures isSorting ==> old(isSorting)
      ensures !mayCancel ==> isSorting == old(isSorting)
      ensures stopped ==> !isSorting
      ensures !stopped ==> data[..] == InsertionSortBy(old(data[..]), Identity)
      ensures SortedBy(old(data[..]), Identity) ==> data[..] == old(data[..])
    {
      ghost var s0 := data[..];
      var n := data.Length;
      stopped := false;
      if n == 0 {
        return;
      }
      var i := 1;
      ghost var sorted := SortedBy(s0, Identity);
      while i < n
        invariant 1 <= i <= n
        invariant data[..] == Insertions(s0, Identity, i)
        invariant sorted ==> data[..] == s0
        invariant isSorting ==> old(isSorting)
        invariant !mayCancel ==> isSorting == old(isSorting)
      {
        if !isSorting {
          return true;
        }
        var next := i + 1;
        InsertionsNext(s0, Identity, i, next);
        stopped := InsertKey(i);
        if stopped {
          return;
        }
        i := next;
      }
    }

    /**
     * Outer iteration i of `insertionSort`: hold cell i as the key, shift the
     * greater cells before it one place to the right, and write the key into
     * the cell they free.
     */
    method InsertKey(i: nat) returns (stopped: bool)
      requires 1 <= i < data.Length
      modifies data, this`isSorting
      ensures isSorting ==> old(isSorting)
      ensures !mayCancel ==> isSorting == old(isSorting)
      ensures stopped ==> !isSorting
      ensures !stopped ==> data[..] == Insert(old(data[..])[..i], Identity, old(data[i])) + old(data[..])[i + 1..]
      ensures (forall q :: 0 <= q < i ==> old(data[q]) <= old(data[i])) ==> data[..] == old(data[..])
      ensures SortedBy(old(data[..]), Identity) ==> data[..] == old(data[..])
    {
      ghost var t := data[..];
      var key := data[i];
      Pause();
      var hole;
      stopped, hole := ShiftGreater(i, key);
      if hole < i {
        assert key < t[hole];
      }
      if hole == i {
        ShiftedStart(t, i);
      }
      if stopped {
        return;
      }
      PlaceKey(t, i, hole);
      data[hole] := key;
      Pause();
    }

    /**
     * The shifting loop of outer iteration i. The source counts j down from
     * i - 1; here `hole` is j + 1, the cell the key would be written to.
     * Each cell before i greater than the key moves one place right until a
     * cell not greater than the key, or the front, is reached.
     */
    method ShiftGreater(i: nat, key: int) returns (stopped: bool, hole: nat)
      requires 1 <= i < data.Length && data[i] == key
      modifies data, this`isSorting
      ensures isSorting ==> old(isSorting)
      ensures !mayCancel ==> isSorting == old(isSorting)
      ensures stopped ==> !isSorting
      ensures hole <= i && data[..] == Shifted(old(data[..]), i, hole)
      ensures forall q :: hole <= q < i ==> key < old(data[q])
      ensures !stopped ==> hole == 0 || old(data[hole - 1]) <= key
    {
      ghost var t := data[..];
      hole := i;
      ShiftedStart(t, i);
      while hole > 0 && data[hole - 1] > key
        invariant hole <= i
        invariant data[..] == Shifted(t, i, hole)
        invariant forall q :: hole <= q < i ==> key < t[q]
        invariant isSorting ==> old(isSorting)
        invariant !mayCancel ==> isSorting == old(isSorting)
      {
        if !isSorting {
          return true, hole;
        }
        ShiftedAt(t, i, hole, hole - 1);
        ShiftedStep(t, i, hole);
        data[hole] := data[hole - 1];
        Pause();
        hole := hole - 1;
      }
      if hole > 0 {
        ShiftedAt(t, i, hole, hole - 1);
      }
      stopped := false;
    }
  
    /**
     * `merge`: copy the cells start .. mid and mid + 1 .. end out, then write
     * them back in merged order, taking the left element on a tie. The range
     * receives the merge of the two copies; no other cell changes. There is no
     * check of the flag here: a merge always runs to its end.
     */
    method Merge(start: nat, mid: nat, end: nat)
      requires start <= mid < end < data.Length
      modifies data, this`isSorting
      ensures isSorting ==> old(isSorting)
      ensures !mayCancel ==> isSorting == old(isSorting)
      ensures data[..] == Splice(old(data[..]), start, MergeBy(old(data[..])[start..mid + 1], old(data[..])[mid + 1..end + 1], Identity))
    {
      ghost var s0 := data[..];
      var left, right := data[start..mid + 1], data[mid + 1..end + 1];
      ghost var m := MergeBy(left, right, Identity);
      var i, j := MergeHeads(start, left, right, s0);
      i := MergeLeftRest(start, left, right, s0, i, j);
      j := MergeRightRest(start, left, right, s0, i, j);
      forall q | 0 <= q < data.Length ensures data[..][q] == Splice(s0, start, m)[q] {
        SpliceAt(s0, start, m, q);
      }
    }

    /** The comparing loop of `merge`, until one of the copies is used up. */
    method MergeHeads(start: nat, left: seq<int>, right: seq<int>, ghost s0: seq<int>) returns (i: nat, j: nat)
      requires MergeProgress(data[..], s0, start, left, right, 0, 0)
      modifies data, this`isSorting
      ensures isSorting ==> old(isSorting)
      ensures !mayCancel ==> isSorting == old(isSorting)
      ensures MergeProgress(data[..], s0, start, left, right, i, j) && (i == |left| || j == |right|)
    {
      i, j := 0, 0;
      var k := start;
      while i < |left| && j < |right|
        invariant k == start + i + j
        invariant MergeProgress(data[..], s0, start, left, right, i, j)
        invariant isSorting ==> old(isSorting)
        invariant !mayCancel ==> isSorting == old(isSorting)
      {
        Pause();
        if left[i] <= right[j] {
          var i' := i + 1;
          MergeTakeLeft(data[..], s0, start, left, right, i, j, k, i');
          data[k] := left[i];
          i := i';
        } else {
          var j' := j + 1;
          MergeTakeRight(data[..], s0, start, left, right, i, j, k, j');
          data[k] := right[j];
          j := j';
        }
        k := k + 1;
      }
    }

    /** The loop of `merge` copying what is left of the left copy. */
    method MergeLeftRest(start: nat, left: seq<int>, right: seq<int>, ghost s0: seq<int>, i0: nat, j: nat) returns (i: nat)
      requires MergeProgress(data[..], s0, start, left, right, i0, j) && (i0 == |left| || j == |right|)
      modifies data, this`isSorting
      ensures isSorting ==> old(isSorting)
      ensures !mayCancel ==> isSorting == old(isSorting)
      ensures MergeProgress(data[..], s0, start, left, right, i, j) && i == |left|
    {
      i := i0;
      var k := start + i + j;
      while i < |left|
        invariant k == start + i + j && i <= |left|
        invariant i < |left| ==> j == |right|
        invariant MergeProgress(data[..], s0, start, left, right, i, j)
        invariant isSorting ==> old(isSorting)
        invariant !mayCancel ==> isSorting == old(isSorting)
      {
        var i' := i + 1;
        MergeTakeLeft(data[..], s0, start, left, right, i, j, k, i');
        data[k] := left[i];
        i := i';
        Pause();
        k := k + 1;
      }
    }

    /** The loop of `merge` copying what is left of the right copy. */
    method MergeRightRest(start: nat, left: seq<int>, right: seq<int>, ghost s0: seq<int>, i: nat, j0: nat) returns (j: nat)
      requires MergeProgress(data[..], s0, start, left, right, i, j0) && i == |left|
      modifies data, this`isSorting
      ensures isSorting ==> old(isSorting)
      ensures !mayCancel ==> isSorting == old(isSorting)
      ensures MergeProgress(data[..], s0, start, left, right, i, j) && j == |right|
    {
      j := j0;
      var k := start + i + j;
      while j < |right|
        invariant k == start + i + j && j <= |right|
        invariant MergeProgress(data[..], s0, start, left, right, i, j)
        invariant isSorting ==> old(isSorting)
        invariant !mayCancel ==> isSorting == old(isSorting)
      {
        var j' := j + 1;
        MergeTakeRight(data[..], s0, start, left, right, i, j, k, j');
        data[k] := right[j];
        j := j';
        Pause();
        k := k + 1;
      }
    }

    /**
     * The loop of `partition` over the range low .. high, whose last cell is
     * the pivot: each cell before the pivot that is strictly smaller is
     * exchanged to the end of the smaller part. The loop never polls the flag.
     * The returned i is the source's `i`, the last cell of the smaller part.
     */
    method PartitionScan(low: nat, high: nat, ghost s0: seq<int>, ghost r: seq<int>, ghost n: nat) returns (i: int)
      requires low < high < data.Length && data[..] == s0 && r == s0[low..high + 1] && n == high - low
      modifies data, this`isSorting
      ensures isSorting ==> old(isSorting)
      ensures !mayCancel ==> isSorting == old(isSorting)
      ensures i + 1 == low + LomutoScan(r, Identity, n).1
      ensures data[..] == Splice(s0, low, LomutoScan(r, Identity, n).0)
    {
      var pivot := data[high];
      i := low - 1;
      var j := low;
      ghost var x, t, b := 0, r, 0;
      SpliceOwnRange(s0, low, high + 1);
      while j < high
        invariant j == low + x && x <= n && i + 1 == low + b && b <= x < |t| == |r| && pivot == s0[high]
        invariant t == LomutoScan(r, Identity, x).0 && b == LomutoScan(r, Identity, x).1
        invariant data[..] == Splice(s0, low, t)
        invariant isSorting ==> old(isSorting)
        invariant !mayCancel ==> isSorting == old(isSorting)
      {
        i := PartitionStep(low, high, pivot, i, j, s0, r, t, b, x);
        t, b := LomutoScan(r, Identity, x + 1).0, LomutoScan(r, Identity, x + 1).1;
        j, x := j + 1, x + 1;
      }
      assert x == n;
    }

    /**
     * One iteration of the loop of `partition`, comparing cell j = low + x
     * with the pivot: a smaller cell is exchanged to the end of the smaller
     * part, which ends at i, as step x of LomutoScan does.
     */
    method PartitionStep(low: nat, high: nat, pivot: int, i: int, j: nat, ghost s0: seq<int>, ghost r: seq<int>,
                         ghost t: seq<int>, ghost b: nat, ghost x: nat) returns (i': int)
      requires low <= j < high < data.Length == |s0| && r == s0[low..high + 1] && j == low + x && i + 1 == low + b
      requires t == LomutoScan(r, Identity, x).0 && b == LomutoScan(r, Identity, x).1 && data[..] == Splice(s0, low, t)
      requires pivot == s0[high]
      modifies data, this`isSorting
      ensures isSorting ==> old(isSorting)
      ensures !mayCancel ==> isSorting == old(isSorting)
      ensures i' + 1 == low + LomutoScan(r, Identity, x + 1).1
      ensures data[..] == Splice(s0, low, LomutoScan(r, Identity, x + 1).0)
    {
      Pause();
      ghost var d := data[..];
      i' := i;
      if data[j] < pivot {
        PartitionTake(s0, r, d, t, low, high, x, b, i + 1, j);
        i' := i + 1;
        data[i'], data[j] := data[j], data[i'];
        assert data[..] == Swap(d, i', j);
      } else {
        PartitionSkip(s0, r, d, t, low, high, x, b, j);
      }
    }

    /**
     * `partition`: the scan, then the exchange of the pivot into the cell just
     * after the smaller part, whose index is returned. The range becomes what
     * PartitionBy makes of it and no other cell changes.
     */
    method Partition(low: nat, high: nat) returns (p: nat)
      requires low < high < data.Length
      modifies data, this`isSorting
      ensures isSorting ==> old(isSorting)
      ensures !mayCancel ==> isSorting == old(isSorting)
      ensures data[..] == Splice(old(data[..]), low, PartitionBy(old(data[..])[low..high + 1], Identity).0)
      ensures p == low + PartitionBy(old(data[..])[low..high + 1], Identity).1
    {
      ghost var s0 := data[..];
      ghost var r := data[low..high + 1];
      ghost var n := high - low;
      var i := PartitionScan(low, high, s0, r, n);
      ghost var t, b := LomutoScan(r, Identity, n).0, LomutoScan(r, Identity, n).1;
      ghost var d := data[..];
      data[i + 1], data[high] := data[high], data[i + 1];
      assert data[..] == Swap(d, i + 1, high);
      SpliceSwap(s0, low, t, b, n, i + 1, high);
      PartitionByScan(r, Identity, n, t, b);
      p := i + 1;
    }

    /**
     * `quickSort(low, high)` over the inclusive range low .. high, which may
     * be empty (high = low - 1, as the recursive calls make it). The range
     * receives its QuickSortBy and no other cell changes. The call
     * over the whole array ends with markSortedGradually, which only reads
     * the flag.
     */
    method QuickSort(low: nat, high: int)
      requires low <= high + 1 <= data.Length
      modifies data, this`isSorting
      decreases high + 1 - low, 1
      ensures isSorting ==> old(isSorting)
      ensures !mayCancel ==> isSorting == old(isSorting)
      ensures data[..] == Splice(old(data[..]), low, QuickSortBy(old(data[..])[low..high + 1], Identity))
    {
      if low < high {
        SortAroundPivot(low, high);
      } else {
        ShortRangeStays(data[..], low, high, data[low..high + 1]);
      }
      if high - low == data.Length - 1 {
        MarkSortedGradually();
      }
    }

    /**
     * The branch of `quickSort` over two or more cells: partition, then sort
     * the cells before the pivot and those after it.
     */
    method SortAroundPivot(low: nat, high: nat)
      requires low < high < data.Length
      modifies data, this`isSorting
      decreases high + 1 - low, 0
      ensures isSorting ==> old(isSorting)
      ensures !mayCancel ==> isSorting == old(isSorting)
      ensures data[..] == Splice(old(data[..]), low, QuickSortBy(old(data[..])[low..high + 1], Identity))
    {
      ghost var s0 := data[..];
      ghost var r := s0[low..high + 1];
      var pi := Partition(low, high);
      var before, after := pi as int - 1, pi + 1;
      ghost var d1 := data[..];
      QuickSort(low, before);
      ghost var d2 := data[..];
      QuickSort(after, high);
      QuickSortComposes(s0, d1, d2, data[..], low, before, pi, after, high, r, PartitionBy(r, Identity).0, d1[low..before + 1], d2[after..high + 1]);
    }

    /**
     * `mergeSort(start, end)` over the inclusive range start .. end: nothing
     * happens when it holds at most one cell; otherwise both halves around
     * mid = floor((start + end) / 2) are sorted and merged, and the range
     * receives its MergeSortBy while no other cell changes. The call over the
     * whole array then runs markSortedGradually.
     */
    method MergeSort(start: nat, end: int)
      requires start <= end + 1 <= data.Length
      modifies data, this`isSorting
      decreases end + 1 - start, 1
      ensures isSorting ==> old(isSorting)
      ensures !mayCancel ==> isSorting == old(isSorting)
      ensures data[..] == Splice(old(data[..]), start, MergeSortBy(old(data[..])[start..end + 1], Identity))
    {
      if start >= end {
        ShortRangeStays(data[..], start, end, data[start..end + 1]);
        return;
      }
      SortHalvesAndMerge(start, end);
      if end - start == data.Length - 1 {
        MarkSortedGradually();
      }
    }

    /** The body of `mergeSort` over two or more cells: sort either half, then merge them. */
    method SortHalvesAndMerge(start: nat, end: nat)
      requires start < end < data.Length
      modifies data, this`isSorting
      decreases end + 1 - start, 0
      ensures isSorting ==> old(isSorting)
      ensures !mayCancel ==> isSorting == old(isSorting)
      ensures data[..] == Splice(old(data[..]), start, MergeSortBy(old(data[..])[start..end + 1], Identity))
    {
      ghost var s0 := data[..];
      var mid := (start + end) / 2;
      var right := mid + 1;
      MergeSort(start, mid);
      ghost var d1 := data[..];
      MergeSort(right, end);
      ghost var d2 := data[..];
      Merge(start, mid, end);
      MergeSortComposes(s0, d1, d2, data[..], start, mid, right, end, s0[start..end + 1], s0[start..mid + 1], d1[right..end + 1],
                        d2[start..mid + 1], d2[mid + 1..end + 1]);
    }

    /**
     * `markSortedGradually`: one pause per bar, stopping as soon as the flag
     * is found cleared. Only the colouring of the bars happens here, so the
     * array is left alone.
     */
    method MarkSortedGradually()
      modifies this`isSorting
      ensures isSorting ==> old(isSorting)
      ensures !mayCancel ==> isSorting == old(isSorting)
      ensures data[..] == old(data[..])
    {
      var i := 0;
      while i < data.Length
        invariant isSorting ==> old(isSorting)
        invariant !mayCancel ==> isSorting == old(isSorting)
      {
        if !isSorting {
          return;
        }
        Pause();
        i := i + 1;
      }
    }

    /**
     * `runSort`: a click while a run is in progress changes nothing.
     * Otherwise the flag is set for the run, the algorithm runs, the bars are
     * marked sorted if the flag is still set, and the flag is cleared at the
     * end. `finished` tells that the algorithm itself was not cancelled;
     * the loops of merge sort and quick sort never poll the flag, so they
     * always finish, and on a page without cancellation every sort finishes.
     * Every run but a cancelled insertion sort keeps the bar heights.
     */
    method RunSort(alg: Algorithm) returns (ghost finished: bool)
      modifies data, this`isSorting
      ensures old(isSorting) ==> isSorting && data[..] == old(data[..]) && !finished
      ensures !old(isSorting) ==> !isSorting
      ensures !old(isSorting) && !alg.Insertion? ==> multiset(data[..]) == multiset(old(data[..]))
      ensures !old(isSorting) && (alg.Merge? || alg.Quick? || !mayCancel) ==> finished
      ensures finished ==> data[..] == SortOf(alg, old(data[..]))
      ensures finished ==> SortedBy(data[..], Identity) && multiset(data[..]) == multiset(old(data[..]))
    {
      if isSorting {
        return false;
      }
      isSorting := true;
      ghost var s0 := data[..];
      match alg {
        case Bubble =>
          ghost var comparisons, swaps;
          finished, comparisons, swaps := BubbleSort();
        case Selection =>
          finished := SelectionSort();
        case Insertion =>
          finished := InsertionSort();
        case Merge =>
          var last := data.Length - 1;
          MergeSort(0, last);
          MergeSortOutcome(s0, last, s0[0..last + 1], data[..]);
          finished := true;
        case Quick =>
          var last := data.Length - 1;
          QuickSort(0, last);
          QuickSortOutcome(s0, last, s0[0..last + 1], data[..]);
          finished := true;
      }
      if isSorting {
        MarkSortedGradually();
      }
      isSorting := false;
    }

    /**
     * `generateArray`, with the random bar heights given as `values`:
     * nothing happens while a run is in progress; otherwise the array is
     * replaced by a new one holding `values`.
     */
    method GenerateArray(values: seq<int>)
      modifies this`data
      ensures old(isSorting) ==> data == old(data)
      ensures !old(isSorting) ==> fresh(data) && data[..] == values
    {
      if isSorting {
        return;
      }
      data := new int[|values|](i requires 0 <= i < |values| => values[i]);
    }

    /**
     * `cancelSortingAndGenerate`, the Generate button: a run in progress is
     * asked to stop by clearing the flag, and the new array is left to a
     * later GenerateArray (`deferred`); with no run in progress the new array
     * is generated at once.
     */
    method CancelSortingAndGenerate(values: seq<int>) returns (deferred: bool)
      modifies this`isSorting, this`data
      ensures !isSorting && deferred == old(isSorting)
      ensures deferred ==> data == old(data)
      ensures !deferred ==> fresh(data) && data[..] == values
    {
      if isSorting {
        isSorting := false;
        deferred := true;
      } else {
        deferred := false;
        GenerateArray(values);
      }
    }
  }
}
