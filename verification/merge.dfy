/**
 * Merge sort as the visualizer runs it: split the inclusive range
 * [start, end] at mid = floor((start + end) / 2), sort both halves, then merge
 * copies of the two halves back, taking from the left half on ties.
 */
module MergeModel {
  import opened SortBasics

  /**
   * The cells `merge` writes back: the comparing loop takes the left head
   * when its key is not greater (`<=`), and the two tail loops copy what
   * remains of either half.
   */
  function MergeBy<T>(left: seq<T>, right: seq<T>, key: T -> int): (r: seq<T>)
    ensures |r| == |left| + |right|
    decreases |left| + |right|
  {
    if left == [] then right
    else if right == [] then left
    else if key(left[0]) <= key(right[0]) then [left[0]] + MergeBy(left[1..], right, key)
    else [right[0]] + MergeBy(left, right[1..], key)
  }

  /** Length of the left half of a range of length n (the cells start .. mid). */
  function LeftHalf(n: nat): (h: nat)
    requires n >= 2
    ensures 1 <= h < n && h - 1 == (n - 1) / 2
  {
    (n - 1) / 2 + 1
  }

  /** `mergeSort` over a range, as a function of the range's contents. */
  function MergeSortBy<T>(s: seq<T>, key: T -> int): (r: seq<T>)
    ensures |r| == |s|
    decreases |s|
  {
    if |s| <= 1 then s
    else
      var h := LeftHalf(|s|);
      MergeBy(MergeSortBy(s[..h], key), MergeSortBy(s[h..], key), key)
  }

  /** The merge takes every element of both halves once. */
  lemma {:induction false} MergePermutes<T>(left: seq<T>, right: seq<T>, key: T -> int)
    ensures multiset(MergeBy(left, right, key)) == multiset(left) + multiset(right)
    decreases |left| + |right|
  {
    if left != [] && right != [] {
      if key(left[0]) <= key(right[0]) {
        MergePermutes(left[1..], right, key);
        HeadTail(left);
      } else {
        MergePermutes(left, right[1..], key);
        HeadTail(right);
      }
    }
  }

  /** mergeSort permutes its range. */
  lemma {:induction false} MergeSortPermutes<T>(s: seq<T>, key: T -> int)
    ensures multiset(MergeSortBy(s, key)) == multiset(s)
    decreases |s|
  {
    if |s| > 1 {
      var h := LeftHalf(|s|);
      MergeSortPermutes(s[..h], key);
      MergeSortPermutes(s[h..], key);
      MergePermutes(MergeSortBy(s[..h], key), MergeSortBy(s[h..], key), key);
      TakeDropConcat(s, h);
    }
  }

  /** Merging two sorted halves gives a sorted range. */
  lemma {:induction false} MergeSorted<T>(left: seq<T>, right: seq<T>, key: T -> int)
    requires SortedBy(left, key) && SortedBy(right, key)
    ensures SortedBy(MergeBy(left, right, key), key)
    decreases |left| + |right|
  {
    if left != [] && right != [] {
      if key(left[0]) <= key(right[0]) {
        MergeSorted(left[1..], right, key);
        HeadBeforeMerge(left[0], left[1..], right, key);
      } else {
        MergeSorted(left, right[1..], key);
        HeadBeforeMerge(right[0], left, right[1..], key);
      }
    }
  }

  /** An element no greater than any of two halves goes before their sorted merge. */
  lemma {:induction false} HeadBeforeMerge<T>(x: T, l: seq<T>, r: seq<T>, key: T -> int)
    requires SortedBy(MergeBy(l, r, key), key)
    requires forall i :: 0 <= i < |l| ==> key(x) <= key(l[i])
    requires forall i :: 0 <= i < |r| ==> key(x) <= key(r[i])
    ensures SortedBy([x] + MergeBy(l, r, key), key)
  {
    var m := MergeBy(l, r, key);
    forall i | 0 <= i < |l + r| ensures key(x) <= key((l + r)[i]) {
      if i >= |l| {
        assert (l + r)[i] == r[i - |l|];
      }
    }
    MergePermutes(l, r, key);
    PermutationKeepsAll(l + r, m, z => key(x) <= key(z));
    SortedAround([], x, m, key);
    assert [] + [x] + m == [x] + m;
  }

  /**
   * The merge is stable: with a sorted left half, the elements of each key
   * come out as those of the left half followed by those of the right half.
   */
  lemma {:induction false} MergeKeepsOrderPerKey<T>(left: seq<T>, right: seq<T>, key: T -> int, k: int)
    requires SortedBy(left, key)
    ensures Filter(MergeBy(left, right, key), key, k) == Filter(left, key, k) + Filter(right, key, k)
    decreases |left| + |right|
  {
    if left == [] {
      assert [] + right == right;
    } else if right == [] {
      assert left + [] == left;
    } else if key(left[0]) <= key(right[0]) {
      assert SortedBy(left[1..], key);
      MergeKeepsOrderPerKey(left[1..], right, key, k);
      TakeLeftKeepsOrder(left, right, key, k);
    } else {
      MergeKeepsOrderPerKey(left, right[1..], key, k);
      if key(right[0]) == k {
        SortedAboveHasNone(left, key, k);
      }
      TakeRightKeepsOrder(left, right[0], right[1..], MergeBy(left, right[1..], key), key, k);
      assert right == [right[0]] + right[1..];
    }
  }

  /** The step of MergeKeepsOrderPerKey where the left head is taken. */
  lemma {:induction false} TakeLeftKeepsOrder<T>(left: seq<T>, right: seq<T>, key: T -> int, k: int)
    requires left != [] && right != [] && key(left[0]) <= key(right[0])
    requires Filter(MergeBy(left[1..], right, key), key, k) == Filter(left[1..], key, k) + Filter(right, key, k)
    ensures Filter(MergeBy(left, right, key), key, k) == Filter(left, key, k) + Filter(right, key, k)
  {
    var x, rest := left[0], left[1..];
    assert left == [x] + rest;
    calc {
      Filter(MergeBy(left, right, key), key, k);
      Filter([x] + MergeBy(rest, right, key), key, k);
      { FilterAppend([x], MergeBy(rest, right, key), key, k); }
      Filter([x], key, k) + Filter(MergeBy(rest, right, key), key, k);
      Filter([x], key, k) + Filter(rest, key, k) + Filter(right, key, k);
      { FilterAppend([x], rest, key, k); }
      Filter(left, key, k) + Filter(right, key, k);
    }
  }

  /**
   * The step of MergeKeepsOrderPerKey where the right head y is taken, with
   * m the merge of the rest. When y has key k the left half holds no element
   * with key k, so y overtakes none of its own key.
   */
  lemma {:induction false} TakeRightKeepsOrder<T>(left: seq<T>, y: T, rest: seq<T>, m: seq<T>, key: T -> int, k: int)
    requires key(y) == k ==> Filter(left, key, k) == []
    requires Filter(m, key, k) == Filter(left, key, k) + Filter(rest, key, k)
    ensures Filter([y] + m, key, k) == Filter(left, key, k) + Filter([y] + rest, key, k)
  {
    var fl, fy, fr := Filter(left, key, k), Filter([y], key, k), Filter(rest, key, k);
    FilterAppend([y], m, key, k);
    FilterAppend([y], rest, key, k);
    FilterSingleton(y, key, k);
    if key(y) == k {
      assert fl + (fy + fr) == fy + fr && fl + fr == fr by {
        assert fl == [];
      }
    } else {
      assert fy + (fl + fr) == fl + fr && fy + fr == fr by {
        assert fy == [];
      }
    }
  }

  /** A sorted sequence whose first key exceeds k holds no element with key k. */
  lemma SortedAboveHasNone<T>(s: seq<T>, key: T -> int, k: int)
    requires s != [] && SortedBy(s, key) && k < key(s[0])
    ensures Filter(s, key, k) == []
  {
    forall i | 0 <= i < |s| ensures k < key(s[i]) {
      if i > 0 {
        assert key(s[0]) <= key(s[i]);
      }
    }
    FilterNoneWithSmallerKey(s, key, k);
  }

  /** A sequence whose keys all exceed k holds no element with key k. */
  lemma {:induction false} FilterNoneWithSmallerKey<T>(s: seq<T>, key: T -> int, k: int)
    requires forall i :: 0 <= i < |s| ==> k < key(s[i])
    ensures Filter(s, key, k) == []
    decreases |s|
  {
    if s != [] {
      FilterNoneWithSmallerKey(s[1..], key, k);
    }
  }

  /** mergeSort leaves its range sorted. */
  lemma {:induction false} MergeSortSorted<T>(s: seq<T>, key: T -> int)
    ensures SortedBy(MergeSortBy(s, key), key)
    decreases |s|
  {
    if |s| > 1 {
      var h := LeftHalf(|s|);
      MergeSortSorted(s[..h], key);
      MergeSortSorted(s[h..], key);
      MergeSorted(MergeSortBy(s[..h], key), MergeSortBy(s[h..], key), key);
    }
  }

  /** mergeSort is stable. */
  lemma {:induction false} MergeSortStable<T>(s: seq<T>, key: T -> int)
    ensures SameOrderPerKey(MergeSortBy(s, key), s, key)
    decreases |s|
  {
    if |s| > 1 {
      var h := LeftHalf(|s|);
      var l, r := MergeSortBy(s[..h], key), MergeSortBy(s[h..], key);
      MergeSortStable(s[..h], key);
      MergeSortStable(s[h..], key);
      MergeSortSorted(s[..h], key);
      TakeDropConcat(s, h);
      forall k ensures Filter(MergeSortBy(s, key), key, k) == Filter(s, key, k) {
        MergeKeepsOrderPerKey(l, r, key, k);
        FilterAppend(s[..h], s[h..], key, k);
      }
    }
  }

  /**
   * One step of the comparing loop: with `m` the whole merge and its part
   * from i + j on still to be written, the next cell is the smaller head
   * (the left one on a tie) and the rest is the merge of what remains.
   */
  lemma {:induction false} MergeNext<T>(m: seq<T>, left: seq<T>, right: seq<T>, key: T -> int, i: nat, j: nat)
    requires i <= |left| && j <= |right| && i + j < |m|
    requires m[i + j..] == MergeBy(left[i..], right[j..], key)
    ensures i < |left| && (j == |right| || key(left[i]) <= key(right[j])) ==>
      m[i + j] == left[i] && m[i + j + 1..] == MergeBy(left[i + 1..], right[j..], key)
    ensures j < |right| && (i == |left| || key(right[j]) < key(left[i])) ==>
      m[i + j] == right[j] && m[i + j + 1..] == MergeBy(left[i..], right[j + 1..], key)
  {
    var l, r := left[i..], right[j..];
    assert m[i + j + 1..] == m[i + j..][1..];
    assert m[i + j] == m[i + j..][0];
    if i < |left| {
      assert l[1..] == left[i + 1..];
    }
    if j < |right| {
      assert r[1..] == right[j + 1..];
    }
  }

  /**
   * One unfolding of MergeSortBy on the range r = s[lo..hi], whose left half
   * x1 ends where the right half x2 starts, at mid.
   */
  lemma MergeSortSplitAt<T>(s: seq<T>, key: T -> int, lo: nat, mid: nat, hi: nat, r: seq<T>, x1: seq<T>, x2: seq<T>)
    requires lo < mid < hi <= |s| && LeftHalf(hi - lo) == mid - lo
    requires r == s[lo..hi] && x1 == s[lo..mid] && x2 == s[mid..hi]
    ensures MergeSortBy(r, key) == MergeBy(MergeSortBy(x1, key), MergeSortBy(x2, key), key)
  {
    SliceHalves(s, lo, mid, hi, r, x1, x2);
    MergeSortUnfold(r, key, x1, x2);
  }

  /** The halves of r = s[lo..hi] cut at mid are the slices of s on either side of mid. */
  lemma SliceHalves<T>(s: seq<T>, lo: nat, mid: nat, hi: nat, r: seq<T>, x1: seq<T>, x2: seq<T>)
    requires lo < mid < hi <= |s| && LeftHalf(hi - lo) == mid - lo
    requires r == s[lo..hi] && x1 == s[lo..mid] && x2 == s[mid..hi]
    ensures |r| >= 2 && x1 == r[..LeftHalf(|r|)] && x2 == r[LeftHalf(|r|)..]
  {
    assert |r| == hi - lo;
  }

  /** One unfolding of MergeSortBy, with both halves named. */
  lemma MergeSortUnfold<T>(r: seq<T>, key: T -> int, x1: seq<T>, x2: seq<T>)
    requires |r| >= 2 && x1 == r[..LeftHalf(|r|)] && x2 == r[LeftHalf(|r|)..]
    ensures MergeSortBy(r, key) == MergeBy(MergeSortBy(x1, key), MergeSortBy(x2, key), key)
  {
  }
}
