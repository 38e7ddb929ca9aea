/**
 * Insertion sort as the visualizer runs it: for i = 1 .. n - 1 hold the value
 * at i as the key, shift each left neighbour one cell to the right while it is
 * strictly greater than the key, then write the key into the freed cell.
 */
module InsertionModel {
  import opened SortBasics

  /**
   * The cells s followed by x after the shifting loop: x ends up just after
   * the last element (from the right) whose key is not greater than its own.
   */
  function Insert<T>(s: seq<T>, key: T -> int, x: T): (r: seq<T>)
    ensures |r| == |s| + 1
    decreases |s|
  {
    if s == [] || key(s[|s| - 1]) <= key(x) then s + [x]
    else Insert(s[..|s| - 1], key, x) + [s[|s| - 1]]
  }

  /** The array before outer iteration `i`: iterations 1 .. i - 1 are done. */
  function Insertions<T>(s: seq<T>, key: T -> int, i: nat): (r: seq<T>)
    requires i <= |s|
    ensures |r| == |s|
    decreases i
  {
    if i <= 1 then s
    else
      var t := Insertions(s, key, i - 1);
      Insert(t[..i - 1], key, t[i - 1]) + t[i..]
  }

  /**
   * Outer iteration i, from the array before it. The next index j is passed
   * as a plain variable tied by `i == j - 1`, in the form the body of
   * Insertions uses, which keeps the loop proof that calls this cheap.
   */
  lemma InsertionsNext<T>(s: seq<T>, key: T -> int, i: nat, j: nat)
    requires 1 < j <= |s| && i == j - 1
    ensures Insertions(s, key, j) == Insert(Insertions(s, key, i)[..i], key, Insertions(s, key, i)[i]) + Insertions(s, key, i)[j..]
  {
  }

  /** The whole of `insertionSort` run to completion. */
  function InsertionSortBy<T>(s: seq<T>, key: T -> int): (r: seq<T>)
    ensures |r| == |s|
  {
    Insertions(s, key, |s|)
  }

  /** Inserting x adds x and nothing else. */
  lemma {:induction false} InsertPermutes<T>(s: seq<T>, key: T -> int, x: T)
    ensures multiset(Insert(s, key, x)) == multiset(s) + multiset{x}
    decreases |s|
  {
    if !(s == [] || key(s[|s| - 1]) <= key(x)) {
      var init, y := s[..|s| - 1], s[|s| - 1];
      InsertPermutes(init, key, x);
      assert s == init + [y];
    }
  }

  /** Before outer iteration i the array is a permutation of the input. */
  lemma {:induction false} InsertionsPermute<T>(s: seq<T>, key: T -> int, i: nat)
    requires i <= |s|
    ensures multiset(Insertions(s, key, i)) == multiset(s)
    decreases i
  {
    if i > 1 {
      InsertionsPermute(s, key, i - 1);
      var t := Insertions(s, key, i - 1);
      InsertPermutes(t[..i - 1], key, t[i - 1]);
      SplitAround(t, i - 1);
    }
  }

  /** Inserting into a sorted sequence gives a sorted sequence. */
  lemma {:induction false} InsertKeepsSorted<T>(s: seq<T>, key: T -> int, x: T)
    requires SortedBy(s, key)
    ensures SortedBy(Insert(s, key, x), key)
    decreases |s|
  {
    if s == [] || key(s[|s| - 1]) <= key(x) {
      SortedAround(s, x, [], key);
      assert s + [x] + [] == s + [x];
    } else {
      var init, y := s[..|s| - 1], s[|s| - 1];
      InsertKeepsSorted(init, key, x);
      var u := Insert(init, key, x);
      InsertPermutes(init, key, x);
      PermutationKeepsAll(init + [x], u, z => key(z) <= key(y));
      SortedAround(u, y, [], key);
      assert u + [y] + [] == u + [y];
    }
  }

  /** The shift test is strict, so x never passes an element with its own key. */
  lemma {:induction false} InsertKeepsOrderPerKey<T>(s: seq<T>, key: T -> int, x: T, k: int)
    ensures Filter(Insert(s, key, x), key, k) == Filter(s + [x], key, k)
    decreases |s|
  {
    if !(s == [] || key(s[|s| - 1]) <= key(x)) {
      var init, y := s[..|s| - 1], s[|s| - 1];
      var u := Insert(init, key, x);
      var fi, fx, fy := Filter(init, key, k), Filter([x], key, k), Filter([y], key, k);
      InsertKeepsOrderPerKey(init, key, x, k);
      FilterAppend(init, [x], key, k);
      FilterAppend(u, [y], key, k);
      assert Filter(Insert(s, key, x), key, k) == fi + fx + fy;
      assert s + [x] == init + [y] + [x];
      FilterAppend(init + [y], [x], key, k);
      FilterAppend(init, [y], key, k);
      assert Filter(s + [x], key, k) == fi + fy + fx;
      FilterSingleton(x, key, k);
      FilterSingleton(y, key, k);
      if key(x) == k {
        assert fy == [];
        assert fi + fx + fy == fi + fy + fx;
      } else {
        assert fx == [];
        assert fi + fx + fy == fi + fy + fx;
      }
    }
  }

  /**
   * Before outer iteration i the prefix of length i is a sorted permutation
   * of the original prefix, and the cells from i on are untouched.
   */
  lemma {:induction false} InsertionsBuildSortedPrefix<T>(s: seq<T>, key: T -> int, i: nat)
    requires i <= |s|
    ensures SortedBy(Insertions(s, key, i)[..i], key)
    ensures multiset(Insertions(s, key, i)[..i]) == multiset(s[..i])
    ensures forall q :: i <= q < |s| ==> Insertions(s, key, i)[q] == s[q]
    decreases i
  {
    if i > 1 {
      var t := Insertions(s, key, i - 1);
      InsertionsBuildSortedPrefix(s, key, i - 1);
      var r := Insertions(s, key, i);
      assert t[i - 1] == s[i - 1];
      InsertionStep(t, key, i);
      assert multiset(r[..i]) == multiset(t[..i]);
      PrefixPermutationGrows(t, s, i);
    }
  }

  /** Two prefixes that are permutations of each other stay so when both grow by the same element. */
  lemma {:induction false} PrefixPermutationGrows<T>(t: seq<T>, s: seq<T>, i: nat)
    requires 1 <= i <= |t| && i <= |s| && t[i - 1] == s[i - 1]
    requires multiset(t[..i - 1]) == multiset(s[..i - 1])
    ensures multiset(t[..i]) == multiset(s[..i])
  {
    assert t[..i] == t[..i - 1] + [t[i - 1]];
    assert s[..i] == s[..i - 1] + [s[i - 1]];
  }

  /**
   * Outer iteration i (inserting the cell i - 1 into the sorted cells before
   * it) sorts the cells up to i and keeps the cells from i on.
   */
  lemma {:induction false} InsertionStep<T>(t: seq<T>, key: T -> int, i: nat)
    requires 1 <= i <= |t| && SortedBy(t[..i - 1], key)
    ensures var r := Insert(t[..i - 1], key, t[i - 1]) + t[i..];
      && |r| == |t|
      && SortedBy(r[..i], key)
      && multiset(r[..i]) == multiset(t[..i])
      && forall q :: i <= q < |t| ==> r[q] == t[q]
  {
    var u := Insert(t[..i - 1], key, t[i - 1]);
    var r := u + t[i..];
    InsertKeepsSorted(t[..i - 1], key, t[i - 1]);
    InsertPermutes(t[..i - 1], key, t[i - 1]);
    assert r[..i] == u;
    assert t[..i] == t[..i - 1] + [t[i - 1]];
  }

  /** Before outer iteration i, every key's elements are still in input order. */
  lemma {:induction false} InsertionsKeepOrderPerKey<T>(s: seq<T>, key: T -> int, i: nat)
    requires i <= |s|
    ensures SameOrderPerKey(Insertions(s, key, i), s, key)
    decreases i
  {
    if i > 1 {
      var t := Insertions(s, key, i - 1);
      InsertionsKeepOrderPerKey(s, key, i - 1);
      forall k ensures Filter(Insertions(s, key, i), key, k) == Filter(s, key, k) {
        InsertionStepKeepsOrder(t, key, i, k);
      }
    }
  }

  /** One outer iteration keeps the order of every key's elements. */
  lemma {:induction false} InsertionStepKeepsOrder<T>(t: seq<T>, key: T -> int, i: nat, k: int)
    requires 1 <= i <= |t|
    ensures Filter(Insert(t[..i - 1], key, t[i - 1]) + t[i..], key, k) == Filter(t, key, k)
  {
    var a, x, b := t[..i - 1], t[i - 1], t[i..];
    FilterAppend(Insert(a, key, x), b, key, k);
    InsertKeepsOrderPerKey(a, key, x, k);
    FilterAppend(a + [x], b, key, k);
    SplitAround(t, i - 1);
  }

  /** When insertionSort runs to completion the result is sorted. */
  lemma InsertionSortSorted<T>(s: seq<T>, key: T -> int)
    ensures SortedBy(InsertionSortBy(s, key), key)
  {
    InsertionsBuildSortedPrefix(s, key, |s|);
    var r := InsertionSortBy(s, key);
    assert r[..|s|] == r;
  }

  /**
   * On a sorted input no cell is shifted: every key is written back into its
   * own cell, so insertionSort leaves the input as it is.
   */
  lemma {:induction false} InsertionsOnSortedIsIdentity<T>(s: seq<T>, key: T -> int, i: nat)
    requires i <= |s| && SortedBy(s, key)
    ensures Insertions(s, key, i) == s
    decreases i
  {
    if i > 1 {
      var h := i - 1;
      InsertionsOnSortedIsIdentity(s, key, h);
      assert key(s[..h][h - 1]) <= key(s[h]);
      assert Insert(s[..h], key, s[h]) == s[..h] + [s[h]];
      assert s[..h] + [s[h]] + s[i..] == s;
    }
  }

  /** insertionSort is stable. */
  lemma InsertionSortStable<T>(s: seq<T>, key: T -> int)
    ensures SameOrderPerKey(InsertionSortBy(s, key), s, key)
  {
    InsertionsKeepOrderPerKey(s, key, |s|);
  }

  /**
   * Where the shifting loop stops: x goes just after a when a is empty or
   * ends with a key not greater than x's, and every element of b has a
   * greater key than x.
   */
  lemma {:induction false} InsertLandsAfter<T>(a: seq<T>, b: seq<T>, key: T -> int, x: T)
    requires a == [] || key(a[|a| - 1]) <= key(x)
    requires forall q :: 0 <= q < |b| ==> key(x) < key(b[q])
    ensures Insert(a + b, key, x) == a + [x] + b
    decreases |b|
  {
    if b == [] {
      assert a + b == a;
    } else {
      var init, y := b[..|b| - 1], b[|b| - 1];
      assert (a + b)[..|a + b| - 1] == a + init;
      assert (a + b)[|a + b| - 1] == y;
      InsertLandsAfter(a, init, key, x);
      assert a + [x] + init + [y] == a + [x] + b;
    }
  }

  /**
   * The array during the shifting loop of outer iteration i, with the cells
   * k + 1 .. i already shifted right: cell k still holds its old value (or,
   * at k == i, the key), which the next write replaces.
   */
  function Shifted<T>(t: seq<T>, i: nat, k: nat): (r: seq<T>)
    requires k <= i < |t|
    ensures |r| == |t|
  {
    t[..k + 1] + t[k..i] + t[i + 1..]
  }

  /** Before any shift the array is untouched. */
  lemma ShiftedStart<T>(t: seq<T>, i: nat)
    requires i < |t|
    ensures Shifted(t, i, i) == t
  {
    assert t[..i + 1] + t[i + 1..] == t;
  }

  /** The cells of the shifted array. */
  lemma ShiftedAt<T>(t: seq<T>, i: nat, k: nat, q: nat)
    requires k <= i < |t| && q < |t|
    ensures Shifted(t, i, k)[q] == if q <= k || i < q then t[q] else t[q - 1]
  {
    var r := Shifted(t, i, k);
    if q <= k {
      assert r[q] == t[..k + 1][q];
    } else if q <= i {
      assert r[q] == t[k..i][q - k - 1];
    } else {
      assert r[q] == t[i + 1..][q - i - 1];
    }
  }

  /**
   * A run cancelled in the middle of a shift: on [3, 2, 1], outer iteration 2
   * holds the key 1 and copies 3 into its cell; stopped there, the array
   * holds 3 twice and the key 1 nowhere, so it is no permutation of the input.
   */
  lemma CancelledShiftLosesKey()
    ensures Insertions([3, 2, 1], Identity, 2) == [2, 3, 1]
    ensures Shifted([2, 3, 1], 2, 1) == [2, 3, 3]
    ensures multiset(Shifted([2, 3, 1], 2, 1)) != multiset([3, 2, 1])
  {
    assert Insert([3], Identity, 2) == [2, 3];
    assert [2, 3, 1][..2] == [2, 3] && [2, 3, 1][1..2] == [3] && [2, 3, 1][3..] == [];
    assert 1 !in multiset([2, 3, 3]);
  }

  /** Copying cell k - 1 into cell k shifts one more cell. */
  lemma ShiftedStep<T>(t: seq<T>, i: nat, k: nat)
    requires 0 < k <= i < |t|
    ensures Shifted(t, i, k)[k := t[k - 1]] == Shifted(t, i, k - 1)
  {
    var r, r' := Shifted(t, i, k)[k := t[k - 1]], Shifted(t, i, k - 1);
    forall q | 0 <= q < |t| ensures r[q] == r'[q] {
      ShiftedAt(t, i, k, q);
      ShiftedAt(t, i, k - 1, q);
    }
  }

  /** Writing the key into cell k finishes outer iteration i. */
  lemma ShiftedPlace<T>(t: seq<T>, i: nat, k: nat, key: T -> int)
    requires k <= i < |t|
    requires k == 0 || key(t[k - 1]) <= key(t[i])
    requires forall q :: k <= q < i ==> key(t[i]) < key(t[q])
    ensures Shifted(t, i, k)[k := t[i]] == Insert(t[..i], key, t[i]) + t[i + 1..]
  {
    var a, b := t[..k], t[k..i];
    forall q | 0 <= q < |b| ensures key(t[i]) < key(b[q]) {
      assert b[q] == t[k + q];
    }
    InsertLandsAfter(a, b, key, t[i]);
    assert a + b == t[..i];
    var r, r' := Shifted(t, i, k)[k := t[i]], a + [t[i]] + b + t[i + 1..];
    forall q | 0 <= q < |t| ensures r[q] == r'[q] {
      ShiftedAt(t, i, k, q);
      if q < k {
        assert r'[q] == a[q];
      } else if q == k {
        assert r'[q] == (a + [t[i]])[q];
      } else if q <= i {
        assert r'[q] == (a + [t[i]] + b)[q];
      } else {
        assert r'[q] == t[i + 1..][q - i - 1];
      }
    }
  }
}
