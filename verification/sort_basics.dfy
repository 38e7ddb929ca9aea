/**
 * Orderings, permutations and stability, shared by the five sorting models.
 *
 * The models are generic in the element type and compare elements through an
 * integer key, so that stability ("equal keys keep their relative order") is a
 * statement with content. The visualizer itself sorts bare integers and uses
 * the key Identity.
 */
module SortBasics {

  /** The key the visualizer sorts by: the bar's value itself. */
  function Identity(x: int): int { x }

  /** `s` is in non-decreasing order of `key`. */
  ghost predicate SortedBy<T>(s: seq<T>, key: T -> int) {
    forall i, j :: 0 <= i < j < |s| ==> key(s[i]) <= key(s[j])
  }

  /** The elements of `s` whose key is `k`, in the order they have in `s`. */
  function Filter<T>(s: seq<T>, key: T -> int, k: int): seq<T>
    decreases |s|
  {
    if |s| == 0 then []
    else (if key(s[0]) == k then [s[0]] else []) + Filter(s[1..], key, k)
  }

  /** For every key, the elements of `t` with that key appear in the same order as in `s`. */
  ghost predicate SameOrderPerKey<T>(t: seq<T>, s: seq<T>, key: T -> int) {
    forall k :: Filter(t, key, k) == Filter(s, key, k)
  }

  /** Exchange of positions `i` and `j` (the `[a[i], a[j]] = [a[j], a[i]]` of the source). */
  function Swap<T>(s: seq<T>, i: nat, j: nat): (r: seq<T>)
    requires i < |s| && j < |s|
    ensures |r| == |s|
  {
    s[i := s[j]][j := s[i]]
  }

  /** What an exchange of two cells does, cell by cell. */
  lemma {:induction false} SwapFacts<T>(s: seq<T>, i: nat, j: nat)
    requires i < |s| && j < |s|
    ensures Swap(s, i, j)[i] == s[j] && Swap(s, i, j)[j] == s[i]
    ensures forall q :: 0 <= q < |s| && q != i && q != j ==> Swap(s, i, j)[q] == s[q]
  {
  }

  /** Exchanging two cells permutes the sequence. */
  lemma {:induction false} SwapPermutes<T>(s: seq<T>, i: nat, j: nat)
    requires i < |s| && j < |s|
    ensures multiset(Swap(s, i, j)) == multiset(s)
  {
  }

  /** A sequence is its prefix before i, its cell i and its suffix after i. */
  lemma {:induction false} SplitAround<T>(s: seq<T>, i: nat)
    requires i < |s|
    ensures s[..i] + [s[i]] + s[i + 1..] == s
  {
  }

  /** A non-empty sequence is its head followed by its tail, as a multiset too. */
  lemma {:induction false} HeadTail<T>(s: seq<T>)
    requires s != []
    ensures s == [s[0]] + s[1..] && multiset(s) == multiset{s[0]} + multiset(s[1..])
  {
    assert s == [s[0]] + s[1..];
  }

  /** A sequence is its prefix before i followed by its suffix from i. */
  lemma {:induction false} TakeDropConcat<T>(s: seq<T>, i: nat)
    requires i <= |s|
    ensures s[..i] + s[i..] == s
  {
  }

  /** Filtering distributes over concatenation. */
  lemma {:induction false} FilterAppend<T>(a: seq<T>, b: seq<T>, key: T -> int, k: int)
    ensures Filter(a + b, key, k) == Filter(a, key, k) + Filter(b, key, k)
    decreases |a|
  {
    if |a| == 0 {
      assert a + b == b;
    } else {
      var c := a + b;
      var h := if key(a[0]) == k then [a[0]] else [];
      assert c[0] == a[0];
      assert c[1..] == a[1..] + b;
      FilterAppend(a[1..], b, key, k);
      var x, y := Filter(a[1..], key, k), Filter(b, key, k);
      assert Filter(c, key, k) == h + (x + y);
      assert Filter(a, key, k) == h + x;
      assert h + (x + y) == (h + x) + y;
    }
  }

  lemma {:induction false} FilterSingleton<T>(x: T, key: T -> int, k: int)
    ensures Filter([x], key, k) == if key(x) == k then [x] else []
  {
    assert [x][1..] == [];
  }

  /**
   * Exchanging two neighbours whose keys differ changes no key's subsequence:
   * a swap that the strict comparisons of the source allow never makes two
   * equal elements cross.
   */
  lemma {:induction false} SwapNeighboursKeepsOrderPerKey<T>(s: seq<T>, key: T -> int, j: nat)
    requires j + 1 < |s| && key(s[j]) != key(s[j + 1])
    ensures SameOrderPerKey(Swap(s, j, j + 1), s, key)
  {
    var a, x, y, b := s[..j], s[j], s[j + 1], s[j + 2..];
    assert s == a + ([x, y] + b);
    assert Swap(s, j, j + 1) == a + ([y, x] + b);
    forall k ensures Filter(Swap(s, j, j + 1), key, k) == Filter(s, key, k) {
      FilterAppend(a, [x, y] + b, key, k);
      FilterAppend([x, y], b, key, k);
      FilterAppend(a, [y, x] + b, key, k);
      FilterAppend([y, x], b, key, k);
      FilterExchangePair(x, y, key, k);
    }
  }

  /** Two elements with different keys can be exchanged without changing any key's subsequence. */
  lemma {:induction false} FilterExchangePair<T>(x: T, y: T, key: T -> int, k: int)
    requires key(x) != key(y)
    ensures Filter([x, y], key, k) == Filter([y, x], key, k)
  {
    assert [x, y] == [x] + [y] && [y, x] == [y] + [x];
    FilterAppend([x], [y], key, k);
    FilterAppend([y], [x], key, k);
    FilterSingleton(x, key, k);
    FilterSingleton(y, key, k);
    var fx, fy := Filter([x], key, k), Filter([y], key, k);
    if key(x) == k {
      assert fy == [] && fx + fy == fy + fx;
    } else {
      assert fx == [] && fx + fy == fy + fx;
    }
  }

  /** A property held by every element of `s` is held by every element of a permutation of `s`. */
  lemma {:induction false} PermutationKeepsAll<T>(s: seq<T>, t: seq<T>, P: T -> bool)
    requires multiset(t) == multiset(s)
    requires forall i :: 0 <= i < |s| ==> P(s[i])
    ensures forall i :: 0 <= i < |t| ==> P(t[i])
  {
    forall i | 0 <= i < |t| ensures P(t[i]) {
      assert t[i] in multiset(t);
      assert t[i] in s;
    }
  }

  /** A sorted left part, an element, and a sorted right part that sit on either side of it form a sorted sequence. */
  lemma {:induction false} SortedAround<T>(a: seq<T>, x: T, b: seq<T>, key: T -> int)
    requires SortedBy(a, key) && SortedBy(b, key)
    requires forall i :: 0 <= i < |a| ==> key(a[i]) <= key(x)
    requires forall i :: 0 <= i < |b| ==> key(x) <= key(b[i])
    ensures SortedBy(a + [x] + b, key)
  {
    var c := a + [x] + b;
    forall i, j | 0 <= i < j < |c| ensures key(c[i]) <= key(c[j]) {
      if j < |a| {
      } else if j == |a| {
      } else if i < |a| {
        assert key(c[i]) <= key(x) <= key(c[j]);
      } else if i == |a| {
      } else {
        assert c[i] == b[i - |a| - 1] && c[j] == b[j - |a| - 1];
      }
    }
  }
}
