/**
 * Selection sort as the visualizer runs it: for each position i, scan
 * i + 1 .. n - 1 keeping the index of the running minimum (replaced only on a
 * strictly smaller key), then exchange it into position i when it is not
 * already there.
 */
module SelectionModel {
  import opened SortBasics

  /** `minIdx` once the scan of s[lo..j] is done. */
  function ScanMin<T>(s: seq<T>, key: T -> int, lo: nat, j: nat): (m: nat)
    requires lo < j <= |s|
    ensures lo <= m < j
    decreases j
  {
    if j == lo + 1 then lo
    else
      var m := ScanMin(s, key, lo, j - 1);
      if key(s[j - 1]) < key(s[m]) then j - 1 else m
  }

  /**
   * The scan finds a minimum of s[lo..j], and the first one: the strict
   * comparison never moves it to a later element with an equal key.
   */
  lemma {:induction false} ScanMinIsFirstMinimum<T>(s: seq<T>, key: T -> int, lo: nat, j: nat)
    requires lo < j <= |s|
    ensures forall q :: lo <= q < j ==> key(s[ScanMin(s, key, lo, j)]) <= key(s[q])
    ensures forall q :: lo <= q < ScanMin(s, key, lo, j) ==> key(s[ScanMin(s, key, lo, j)]) < key(s[q])
    decreases j
  {
    if j > lo + 1 {
      ScanMinIsFirstMinimum(s, key, lo, j - 1);
    }
  }

  /** Iteration `i` of the outer loop: the exchange happens only when the minimum is not already at i. */
  function SelectStep<T>(s: seq<T>, key: T -> int, i: nat): (r: seq<T>)
    requires i < |s|
    ensures |r| == |s|
  {
    var m := ScanMin(s, key, i, |s|);
    if m != i then Swap(s, i, m) else s
  }

  /** The first `i` iterations of the outer loop. */
  function Selections<T>(s: seq<T>, key: T -> int, i: nat): (r: seq<T>)
    requires i <= |s|
    ensures |r| == |s|
    decreases i
  {
    if i == 0 then s else SelectStep(Selections(s, key, i - 1), key, i - 1)
  }

  /** The whole of `selectionSort` run to completion. */
  function SelectionSortBy<T>(s: seq<T>, key: T -> int): (r: seq<T>)
    ensures |r| == |s|
  {
    Selections(s, key, |s|)
  }

  /** The outer loop only exchanges cells: it permutes its input. */
  lemma {:induction false} SelectionsPermute<T>(s: seq<T>, key: T -> int, i: nat)
    requires i <= |s|
    ensures multiset(Selections(s, key, i)) == multiset(s)
    decreases i
  {
    if i > 0 {
      var h := i - 1;
      SelectionsPermute(s, key, h);
      var t := Selections(s, key, h);
      var m := ScanMin(t, key, h, |t|);
      if m != h {
        SwapPermutes(t, h, m);
      }
    }
  }

  /** The first `i` cells are in order and none exceeds a cell from `i` on. */
  ghost predicate SelectedPrefix<T>(r: seq<T>, key: T -> int, i: nat) {
    && (forall p, q :: 0 <= p < q < i && q < |r| ==> key(r[p]) <= key(r[q]))
    && (forall p, q :: 0 <= p < i <= q < |r| ==> key(r[p]) <= key(r[q]))
  }

  /** One iteration puts the minimum of the unsorted part at position i, growing the prefix to j = i + 1 cells. */
  lemma SelectStepExtendsPrefix<T>(t: seq<T>, key: T -> int, i: nat, j: nat)
    requires i < |t| && i == j - 1 && SelectedPrefix(t, key, i)
    ensures SelectedPrefix(SelectStep(t, key, i), key, j)
  {
    var m := ScanMin(t, key, i, |t|);
    ScanMinIsFirstMinimum(t, key, i, |t|);
    var r := SelectStep(t, key, i);
    assert r[i] == t[m];
    forall q | i <= q < |t| ensures key(r[i]) <= key(r[q]) {
      if q == m {
        assert r[q] == t[i];
      } else if q != i {
        assert r[q] == t[q];
      }
    }
    forall p, q | 0 <= p < i < q < |t| ensures key(r[p]) <= key(r[q]) {
      assert r[p] == t[p];
      if q == m {
        assert r[q] == t[i];
      } else {
        assert r[q] == t[q];
      }
    }
  }

  /**
   * After `i` iterations the prefix s[..i] is sorted and every element in it
   * is at most every element after it.
   */
  lemma {:induction false} SelectionsBuildSortedPrefix<T>(s: seq<T>, key: T -> int, i: nat)
    requires i <= |s|
    ensures SelectedPrefix(Selections(s, key, i), key, i)
    decreases i
  {
    if i > 0 {
      var h := i - 1;
      SelectionsBuildSortedPrefix(s, key, h);
      SelectStepExtendsPrefix(Selections(s, key, h), key, h, i);
    }
  }

  /** When selectionSort runs to completion the result is sorted. */
  lemma SelectionSortSorted<T>(s: seq<T>, key: T -> int)
    ensures SortedBy(SelectionSortBy(s, key), key)
  {
    SelectionsBuildSortedPrefix(s, key, |s|);
  }

  /** On a sorted range the first minimum is the first cell, so no exchange happens. */
  lemma SelectStepOnSortedIsIdentity<T>(s: seq<T>, key: T -> int, i: nat)
    requires i < |s| && SortedBy(s, key)
    ensures ScanMin(s, key, i, |s|) == i && SelectStep(s, key, i) == s
  {
    var m := ScanMin(s, key, i, |s|);
    ScanMinIsFirstMinimum(s, key, i, |s|);
    assert key(s[i]) <= key(s[m]);
  }

  /** On a sorted range no outer iteration exchanges anything: selectionSort leaves it as it is. */
  lemma {:induction false} SelectionsOnSortedIsIdentity<T>(s: seq<T>, key: T -> int, i: nat)
    requires i <= |s| && SortedBy(s, key)
    ensures Selections(s, key, i) == s
    decreases i
  {
    if i > 0 {
      var h := i - 1;
      SelectionsOnSortedIsIdentity(s, key, h);
      SelectStepOnSortedIsIdentity(s, key, h);
    }
  }

  /** Orders bars by their tens digit: 20 and 21 tie. */
  function Tens(x: int): int { x / 10 }

  /** The run of selectionSort on [20, 21, 10] under the key Tens: one exchange, of cells 0 and 2. */
  lemma SelectionSortOfSample()
    ensures Selections([20, 21, 10], Tens, 1) == Swap([20, 21, 10], 0, 2) == [10, 21, 20]
    ensures SelectStep([10, 21, 20], Tens, 1) == [10, 21, 20] == SelectStep([10, 21, 20], Tens, 2)
    ensures SelectionSortBy([20, 21, 10], Tens) == [10, 21, 20]
  {
    var s, s1 := [20, 21, 10], [10, 21, 20];
    assert ScanMin(s, Tens, 0, 2) == 0;
    assert ScanMin(s, Tens, 0, 3) == 2;
    assert SelectStep(s, Tens, 0) == s1;
    assert ScanMin(s1, Tens, 1, 3) == 1;
    assert SelectStep(s1, Tens, 1) == s1;
    assert SelectStep(s1, Tens, 2) == s1;
    assert Selections(s, Tens, 1) == s1;
    assert Selections(s, Tens, 2) == s1;
  }

  /**
   * Selection sort is not stable: the long-distance exchange moves 20 past
   * 21, although both have the key 2.
   */
  lemma SelectionSortNotStable()
    ensures !SameOrderPerKey(SelectionSortBy([20, 21, 10], Tens), [20, 21, 10], Tens)
  {
    var s, s1 := [20, 21, 10], [10, 21, 20];
    SelectionSortOfSample();
    assert s1[1..] == [21, 20] && s[1..] == [21, 10];
    assert Filter(s1, Tens, 2)[0] == 21;
    assert Filter(s, Tens, 2)[0] == 20;
  }
}
