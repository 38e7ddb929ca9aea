/**
 * The recursive sorts work on an inclusive index range of the one shared
 * array and leave every other cell alone. Splice(a, lo, r) is the array a
 * with the cells lo .. lo + |r| - 1 replaced by r, which lets a method state
 * its whole new state in one equation.
 */
module Ranges {
  import opened SortBasics

  /** `a` with the cells from `lo` on overwritten by `r`. */
  function Splice<T>(a: seq<T>, lo: nat, r: seq<T>): (res: seq<T>)
    requires lo + |r| <= |a|
    ensures |res| == |a|
  {
    a[..lo] + r + a[lo + |r|..]
  }

  /** A cell of a splice comes from `r` inside the range and from `a` outside it. */
  lemma {:induction false} SpliceAt<T>(a: seq<T>, lo: nat, r: seq<T>, q: nat)
    requires lo + |r| <= |a| && q < |a|
    ensures Splice(a, lo, r)[q] == if lo <= q < lo + |r| then r[q - lo] else a[q]
  {
    if q < lo {
      assert Splice(a, lo, r)[q] == a[..lo][q];
    } else if q < lo + |r| {
      assert Splice(a, lo, r)[q] == (a[..lo] + r)[q];
    }
  }

  /** Splicing a range's own contents back changes nothing. */
  lemma {:induction false} SpliceOwnRange<T>(a: seq<T>, lo: nat, hi: nat)
    requires lo <= hi <= |a|
    ensures Splice(a, lo, a[lo..hi]) == a
  {
    assert a[..lo] + a[lo..hi] + a[hi..] == a;
  }

  /** A slice of the spliced range reads back the matching slice of `r`. */
  lemma {:induction false} SpliceSlice<T>(a: seq<T>, lo: nat, r: seq<T>, x: nat, y: nat)
    requires lo + |r| <= |a| && x <= y <= |r|
    ensures Splice(a, lo, r)[lo + x..lo + y] == r[x..y]
  {
    var s := Splice(a, lo, r);
    forall q | 0 <= q < y - x ensures s[lo + x..lo + y][q] == r[x..y][q] {
      SpliceAt(a, lo, r, lo + x + q);
    }
  }

  /** A splice inside a spliced range is a splice of the range. */
  lemma {:induction false} SpliceNested<T>(a: seq<T>, lo: nat, r: seq<T>, x: nat, r2: seq<T>)
    requires lo + |r| <= |a| && x + |r2| <= |r|
    ensures Splice(Splice(a, lo, r), lo + x, r2) == Splice(a, lo, Splice(r, x, r2))
  {
    var left, right := Splice(Splice(a, lo, r), lo + x, r2), Splice(a, lo, Splice(r, x, r2));
    forall q | 0 <= q < |a| ensures left[q] == right[q] {
      SpliceAt(Splice(a, lo, r), lo + x, r2, q);
      SpliceAt(a, lo, r, q);
      SpliceAt(a, lo, Splice(r, x, r2), q);
      if lo <= q < lo + |r| {
        SpliceAt(r, x, r2, q - lo);
      }
    }
  }

  /** Cells outside the spliced range keep their values. */
  lemma {:induction false} SpliceOutside<T>(a: seq<T>, lo: nat, r: seq<T>, x: nat, y: nat)
    requires lo + |r| <= |a| && x <= y <= |a| && (y <= lo || lo + |r| <= x)
    ensures Splice(a, lo, r)[x..y] == a[x..y]
  {
    var s := Splice(a, lo, r);
    forall q | 0 <= q < y - x ensures s[x..y][q] == a[x..y][q] {
      SpliceAt(a, lo, r, x + q);
    }
  }

  /** Splicing over the whole of a range forgets what the range held before. */
  lemma {:induction false} SpliceCovers<T>(a: seq<T>, b: seq<T>, lo: nat, r: seq<T>)
    requires |a| == |b| && lo + |r| <= |a|
    requires a[..lo] == b[..lo] && a[lo + |r|..] == b[lo + |r|..]
    ensures Splice(a, lo, r) == Splice(b, lo, r)
  {
  }

  /** Exchanging two cells inside a spliced range is exchanging them in the range. */
  lemma {:induction false} SpliceSwap<T>(a: seq<T>, lo: nat, r: seq<T>, x: nat, y: nat, i: nat, j: nat)
    requires lo + |r| <= |a| && x < |r| && y < |r| && i == lo + x && j == lo + y
    ensures Swap(Splice(a, lo, r), i, j) == Splice(a, lo, Swap(r, x, y))
  {
    var left, right := Swap(Splice(a, lo, r), i, j), Splice(a, lo, Swap(r, x, y));
    SwapFacts(Splice(a, lo, r), i, j);
    SwapFacts(r, x, y);
    forall q | 0 <= q < |a| ensures left[q] == right[q] {
      SpliceAt(a, lo, r, q);
      SpliceAt(a, lo, Swap(r, x, y), q);
    }
  }

  /** A splice over the whole sequence is the new contents. */
  lemma SpliceWhole<T>(a: seq<T>, r: seq<T>)
    requires |r| == |a|
    ensures Splice(a, 0, r) == r
  {
    assert a[..0] + r + a[|r|..] == r;
  }

  /**
   * Three splices over one range, as quickSort makes them: the range becomes
   * t, then its part before b becomes a, then its part after b becomes c.
   * Each later splice reads what the earlier ones left, and the range ends
   * as a, the cell t[b], and c.
   */
  lemma {:induction false} SpliceAroundPivot<T>(s0: seq<T>, d1: seq<T>, d2: seq<T>, d3: seq<T>, lo: nat, p: nat, q: nat, hi: nat,
                                                t: seq<T>, b: nat, a: seq<T>, c: seq<T>)
    requires hi == lo + |t| <= |s0| && b < |t| && p == lo + b && q == p + 1 && |a| == b && |c| == |t| - b - 1
    requires d1 == Splice(s0, lo, t)
    requires d2 == Splice(d1, lo, a)
    requires d3 == Splice(d2, q, c)
    ensures d1[lo..p] == t[..b]
    ensures d2[q..hi] == t[b + 1..]
    ensures d3 == Splice(s0, lo, a + [t[b]] + c)
  {
    SpliceSlice(s0, lo, t, 0, b);
    SpliceNested(s0, lo, t, 0, a);
    var t1 := Splice(t, 0, a);
    assert t1 == a + t[b..];
    SpliceSlice(s0, lo, t1, b + 1, |t|);
    assert t1[b + 1..|t|] == t[b + 1..];
    SpliceNested(s0, lo, t1, b + 1, c);
    assert Splice(t1, b + 1, c) == a + [t[b]] + c by {
      assert t1[..b + 1] == a + [t[b]];
    }
  }

  /**
   * Three splices as mergeSort makes them over the cells lo .. hi - 1: the
   * part before mid becomes a, the part from mid on becomes c, then the whole
   * range becomes m. The second splice reads the part untouched by the first,
   * the third reads a and c, and the result is m spliced into the original.
   */
  lemma {:induction false} SpliceHalves<T>(s0: seq<T>, d1: seq<T>, d2: seq<T>, d3: seq<T>, lo: nat, mid: nat, hi: nat,
                                           a: seq<T>, c: seq<T>, m: seq<T>)
    requires lo + |a| == mid && mid + |c| == hi <= |s0| && |m| == hi - lo
    requires d1 == Splice(s0, lo, a)
    requires d2 == Splice(d1, mid, c)
    requires d3 == Splice(d2, lo, m)
    ensures d1[mid..hi] == s0[mid..hi]
    ensures d2[lo..mid] == a && d2[mid..hi] == c
    ensures d3 == Splice(s0, lo, m)
  {
    SpliceOutside(s0, lo, a, mid, hi);
    SpliceOutside(d1, mid, c, lo, mid);
    SpliceSlice(s0, lo, a, 0, |a|);
    assert a[0..|a|] == a;
    SpliceSlice(d1, mid, c, 0, |c|);
    assert c[0..|c|] == c;
    SpliceOutside(d1, mid, c, 0, lo);
    SpliceOutside(s0, lo, a, 0, lo);
    SpliceOutside(d1, mid, c, hi, |s0|);
    SpliceOutside(s0, lo, a, hi, |s0|);
    assert d2[..lo] == s0[..lo] by {
      assert d2[..lo] == d2[0..lo] && s0[..lo] == s0[0..lo] && d1[..lo] == d1[0..lo];
    }
    assert d2[hi..] == s0[hi..] by {
      assert d2[hi..] == d2[hi..|s0|] && s0[hi..] == s0[hi..|s0|] && d1[hi..] == d1[hi..|s0|];
    }
    SpliceCovers(d2, s0, lo, m);
  }
}
