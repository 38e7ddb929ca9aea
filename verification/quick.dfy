/**
 * Quick sort as the visualizer runs it: the Lomuto partition takes the last
 * cell of the range as the pivot, moves every element strictly smaller than
 * it to the front in one left-to-right scan, then exchanges the pivot into the
 * cell just after them; both sides are then sorted recursively.
 */
module QuickModel {
  import opened SortBasics

  /**
   * The range and the count of elements found smaller than the pivot (the
   * `i + 1 - low` of the source) after the first `j` steps of the scan.
   */
  function LomutoScan<T>(s: seq<T>, key: T -> int, j: nat): (res: (seq<T>, nat))
    requires j < |s|
    ensures |res.0| == |s| && res.1 <= j
    decreases j
  {
    if j == 0 then (s, 0)
    else
      var (t, b) := LomutoScan(s, key, j - 1);
      if key(t[j - 1]) < key(s[|s| - 1]) then (Swap(t, b, j - 1), b + 1) else (t, b)
  }

  /** `partition` over a non-empty range: the range afterwards and the pivot's offset in it. */
  function PartitionBy<T>(s: seq<T>, key: T -> int): (res: (seq<T>, nat))
    requires |s| >= 1
    ensures |res.0| == |s| && res.1 < |s|
  {
    var (t, b) := LomutoScan(s, key, |s| - 1);
    (Swap(t, b, |s| - 1), b)
  }

  /** `quickSort` over a range, as a function of the range's contents. */
  function QuickSortBy<T>(s: seq<T>, key: T -> int): (r: seq<T>)
    ensures |r| == |s|
    decreases |s|
  {
    if |s| <= 1 then s
    else
      var (t, p) := PartitionBy(s, key);
      QuickSortBy(t[..p], key) + [t[p]] + QuickSortBy(t[p + 1..], key)
  }

  /**
   * The invariant of the scan after j steps: the first b cells are smaller
   * than the pivot, the next j - b are not, and the cells from j on (the
   * pivot among them) are those of the input s.
   */
  ghost predicate ScanInvariant<T>(s: seq<T>, key: T -> int, t: seq<T>, b: nat, j: nat)
    requires |t| == |s| >= 1 && b <= j < |s|
  {
    && (forall q :: 0 <= q < b ==> key(t[q]) < key(s[|s| - 1]))
    && (forall q :: b <= q < j ==> key(s[|s| - 1]) <= key(t[q]))
    && (forall q :: j <= q < |s| ==> t[q] == s[q])
  }

  /** The scan keeps its invariant. */
  lemma {:induction false} LomutoScanSplits<T>(s: seq<T>, key: T -> int, j: nat)
    requires j < |s|
    ensures ScanInvariant(s, key, LomutoScan(s, key, j).0, LomutoScan(s, key, j).1, j)
    decreases j
  {
    if j > 0 {
      LomutoScanSplits(s, key, j - 1);
      var (t, b) := LomutoScan(s, key, j - 1);
      ScanStep(s, key, t, b, j);
      if key(t[j - 1]) < key(s[|s| - 1]) {
        assert LomutoScan(s, key, j) == (Swap(t, b, j - 1), b + 1);
      } else {
        assert LomutoScan(s, key, j) == (t, b);
      }
    }
  }

  /** The scan only exchanges cells: it permutes the range. */
  lemma {:induction false} LomutoScanPermutes<T>(s: seq<T>, key: T -> int, j: nat)
    requires j < |s|
    ensures multiset(LomutoScan(s, key, j).0) == multiset(s)
    decreases j
  {
    if j > 0 {
      var i := j - 1;
      LomutoScanPermutes(s, key, i);
      ScanStepPermutes(s, key, i, j);
    }
  }

  /** Step j of the scan, after i = j - 1 steps, exchanges at most two cells. */
  lemma {:induction false} ScanStepPermutes<T>(s: seq<T>, key: T -> int, i: nat, j: nat)
    requires 0 < j < |s| && i == j - 1
    ensures multiset(LomutoScan(s, key, j).0) == multiset(LomutoScan(s, key, i).0)
  {
    var (t, b) := LomutoScan(s, key, i);
    if key(t[i]) < key(s[|s| - 1]) {
      assert LomutoScan(s, key, j) == (Swap(t, b, i), b + 1);
      SwapPermutes(t, b, i);
    }
  }

  /** Step j of the scan, from the state after j - 1 steps. */
  lemma {:induction false} ScanStep<T>(s: seq<T>, key: T -> int, t: seq<T>, b: nat, j: nat)
    requires |t| == |s| && 0 < j < |s| && b <= j - 1
    requires ScanInvariant(s, key, t, b, j - 1)
    ensures key(t[j - 1]) < key(s[|s| - 1]) ==> ScanInvariant(s, key, Swap(t, b, j - 1), b + 1, j)
    ensures key(s[|s| - 1]) <= key(t[j - 1]) ==> ScanInvariant(s, key, t, b, j)
  {
    if key(t[j - 1]) < key(s[|s| - 1]) {
      var r := Swap(t, b, j - 1);
      SwapFacts(t, b, j - 1);
      forall q | 0 <= q < b + 1 ensures key(r[q]) < key(s[|s| - 1]) {
        if q < b {
          assert r[q] == t[q];
        }
      }
      forall q | b + 1 <= q < j ensures key(s[|s| - 1]) <= key(r[q]) {
        if q < j - 1 {
          assert r[q] == t[q];
        }
      }
      forall q | j <= q < |s| ensures r[q] == s[q] {
        assert r[q] == t[q];
      }
    }
  }

  /**
   * `partition` returns the final place p of the pivot (the old last cell):
   * everything before p is strictly smaller, everything after it is not,
   * and the range is a permutation of the input.
   */
  lemma {:induction false} PartitionSplits<T>(s: seq<T>, key: T -> int)
    requires |s| >= 1
    ensures var (t, p) := PartitionBy(s, key);
      && t[p] == s[|s| - 1]
      && (forall q :: 0 <= q < p ==> key(t[q]) < key(t[p]))
      && (forall q :: p < q < |s| ==> key(t[p]) <= key(t[q]))
      && multiset(t) == multiset(s)
  {
    var n := |s|;
    LomutoScanSplits(s, key, n - 1);
    LomutoScanPermutes(s, key, n - 1);
    var (t, b) := LomutoScan(s, key, n - 1);
    SwapFacts(t, b, n - 1);
    SwapPermutes(t, b, n - 1);
    var r := Swap(t, b, n - 1);
    forall q | b < q < n ensures key(r[b]) <= key(r[q]) {
      if q < n - 1 {
        assert r[q] == t[q];
      }
    }
  }

  /** quickSort permutes its range. */
  lemma {:induction false} QuickSortPermutes<T>(s: seq<T>, key: T -> int)
    ensures multiset(QuickSortBy(s, key)) == multiset(s)
    decreases |s|
  {
    if |s| > 1 {
      var (t, p) := PartitionBy(s, key);
      PartitionSplits(s, key);
      QuickSortPermutes(t[..p], key);
      QuickSortPermutes(t[p + 1..], key);
      SplitAround(t, p);
    }
  }

  /** quickSort leaves its range sorted. */
  lemma {:induction false} QuickSortSorted<T>(s: seq<T>, key: T -> int)
    ensures SortedBy(QuickSortBy(s, key), key)
    decreases |s|
  {
    if |s| > 1 {
      var (t, p) := PartitionBy(s, key);
      PartitionSplits(s, key);
      var a, c := t[..p], t[p + 1..];
      QuickSortSorted(a, key);
      QuickSortSorted(c, key);
      QuickSortKeepsBounds(a, key, key(t[p]), true);
      forall i | 0 <= i < |c| ensures key(t[p]) <= key(c[i]) {
        assert c[i] == t[p + 1 + i];
      }
      QuickSortKeepsBounds(c, key, key(t[p]), false);
      SortedAround(QuickSortBy(a, key), t[p], QuickSortBy(c, key), key);
    }
  }

  /** A bound on every key of a range (from above when `upper`, else from below) still holds after quickSort. */
  lemma {:induction false} QuickSortKeepsBounds<T>(s: seq<T>, key: T -> int, v: int, upper: bool)
    requires forall i :: 0 <= i < |s| ==> if upper then key(s[i]) <= v else v <= key(s[i])
    ensures forall i :: 0 <= i < |s| ==> if upper then key(QuickSortBy(s, key)[i]) <= v else v <= key(QuickSortBy(s, key)[i])
  {
    QuickSortPermutes(s, key);
    PermutationKeepsAll(s, QuickSortBy(s, key), z => if upper then key(z) <= v else v <= key(z));
  }

  /** `partition` is the scan of all n cells but the pivot, then the closing exchange. */
  lemma PartitionByScan<T>(s: seq<T>, key: T -> int, n: nat, t: seq<T>, b: nat)
    requires n + 1 == |s| && t == LomutoScan(s, key, n).0 && b == LomutoScan(s, key, n).1
    ensures PartitionBy(s, key).0 == Swap(t, b, n) && PartitionBy(s, key).1 == b
  {
  }

  /**
   * Step x of the scan, as the loop of `partition` takes it: the cell compared
   * and the pivot still hold their input values, and the next state exchanges
   * the compared cell into the front part exactly when it is smaller.
   */
  lemma ScanNext<T>(s: seq<T>, key: T -> int, x: nat)
    requires x + 1 < |s|
    ensures var t, b := LomutoScan(s, key, x).0, LomutoScan(s, key, x).1;
      && t[x] == s[x] && t[|s| - 1] == s[|s| - 1] && b <= x
      && (key(s[x]) < key(s[|s| - 1]) ==> LomutoScan(s, key, x + 1).0 == Swap(t, b, x) && LomutoScan(s, key, x + 1).1 == b + 1)
      && (key(s[|s| - 1]) <= key(s[x]) ==> LomutoScan(s, key, x + 1).0 == t && LomutoScan(s, key, x + 1).1 == b)
  {
    LomutoScanSplits(s, key, x);
  }

  /** One unfolding of QuickSortBy, with the partitioned range t, the pivot's offset b and both sides named. */
  lemma QuickSortUnfold<T>(s: seq<T>, key: T -> int, t: seq<T>, b: nat, x1: seq<T>, x2: seq<T>)
    requires |s| >= 2 && t == PartitionBy(s, key).0 && b == PartitionBy(s, key).1
    requires b < |t| && x1 == t[..b] && x2 == t[b + 1..]
    ensures QuickSortBy(s, key) == QuickSortBy(x1, key) + [t[b]] + QuickSortBy(x2, key)
  {
  }
}
