/**
 * `eng::insertion_sort` (src/eng/algorithm/stable_sort.h:39-72): stable
 * insertion sort of a range by shifting. It sorts a growing prefix: each
 * element out of order is held aside while the larger elements before it
 * move one place right, and is then stored in the gap. Its result is the
 * reference sort `Sort`, which inserts the elements one by one in the same way.
 */
module Insertion {
  import opened SortSpec

  /** Inserting where the scan stops is `Insert`. */
  lemma {:induction false} InsertAt(p: seq<Item>, m: int, x: Item)
    requires 0 <= m <= |p|
    requires forall k :: 0 <= k < m ==> p[k].key <= x.key
    requires m < |p| ==> x.key < p[m].key
    ensures Insert(p, x) == p[..m] + [x] + p[m..]
  {
    if m > 0 {
      InsertAt(p[1..], m - 1, x);
      assert p[1..][..m - 1] == p[1..m];
      assert p[1..][m - 1..] == p[m..];
      assert p[..m] == [p[0]] + p[1..m];
    } else {
      assert p[..0] == [];
      assert p[0..] == p;
    }
  }

  /** In a sorted sequence it is enough to compare with the neighbours of the gap. */
  lemma InsertInSorted(p: seq<Item>, x: Item, m: int)
    requires Sorted(p) && 0 <= m <= |p|
    requires 0 < m ==> p[m - 1].key <= x.key
    requires m < |p| ==> x.key < p[m].key
    ensures Insert(p, x) == p[..m] + [x] + p[m..]
  {
    forall k | 0 <= k < m
      ensures p[k].key <= x.key
    {
      if k < m - 1 {
        assert p[k].key <= p[m - 1].key;
      }
    }
    InsertAt(p, m, x);
  }

  /** The range once the element at `sorted` has been stored at `scan`, the
      elements in between having moved one place right. */
  lemma Shifted(cur: seq<Item>, after: seq<Item>, lo: int, sorted: int, scan: int)
    requires 0 <= lo <= scan <= sorted < |cur| && |after| == |cur|
    requires after[scan] == cur[sorted]
    requires forall k :: 0 <= k < |after| && !(scan <= k <= sorted) ==> after[k] == cur[k]
    requires forall k :: scan < k <= sorted ==> after[k] == cur[k - 1]
    ensures after[..lo] == cur[..lo] && after[sorted + 1..] == cur[sorted + 1..]
    ensures after[lo..sorted + 1] == cur[lo..sorted][..scan - lo] + [cur[sorted]] + cur[lo..sorted][scan - lo..]
  {
    var r := cur[lo..sorted][..scan - lo] + [cur[sorted]] + cur[lo..sorted][scan - lo..];
    forall k | 0 <= k < sorted + 1 - lo
      ensures after[lo..sorted + 1][k] == r[k]
    {
      assert after[lo..sorted + 1][k] == after[lo + k];
      if k < scan - lo {
        assert r[k] == cur[lo + k];
      } else if k > scan - lo {
        assert r[k] == cur[lo + k - 1];
      }
    }
    assert after[lo..sorted + 1] == r;
  }

  /** The reference sort of one more element of `t` puts it after every
      element already sorted whose key is at most its own, and before the others. */
  lemma SortUpToGrows(t: seq<Item>, n: int, cur: seq<Item>, lo: int, scan: int)
    requires 0 <= lo <= scan <= lo + n <= |cur| && n < |t| && cur[lo..lo + n] == SortUpTo(t, n)
    requires lo < scan ==> cur[scan - 1].key <= t[n].key
    requires scan < lo + n ==> t[n].key < cur[scan].key
    ensures SortUpTo(t, n + 1) == cur[lo..lo + n][..scan - lo] + [t[n]] + cur[lo..lo + n][scan - lo..]
  {
    var p, m := cur[lo..lo + n], scan - lo;
    assert m < n ==> cur[scan] == p[m];
    assert 0 < m ==> cur[scan - 1] == p[m - 1];
    SortUpToSorted(t, n);
    InsertInSorted(p, t[n], m);
  }

  /** One step of the outer loop: once the element at `sorted` is stored at
      `scan`, the sorted prefix holds one more element of `t`, inserted as
      the reference sort inserts it. */
  lemma InsertStep(cur: seq<Item>, after: seq<Item>, t: seq<Item>, lo: int, n: int, scan: int)
    requires 0 <= lo <= scan <= lo + n < |cur| && |after| == |cur| && n < |t|
    requires cur[lo..lo + n] == SortUpTo(t, n) && cur[lo + n] == t[n]
    requires after[scan] == cur[lo + n]
    requires forall k :: 0 <= k < |after| && !(scan <= k <= lo + n) ==> after[k] == cur[k]
    requires forall k :: scan < k <= lo + n ==> after[k] == cur[k - 1]
    requires scan < lo + n ==> cur[scan].key > cur[lo + n].key
    requires lo < scan ==> cur[scan - 1].key <= cur[lo + n].key
    ensures after[..lo] == cur[..lo] && after[lo + n + 1..] == cur[lo + n + 1..]
    ensures after[lo..lo + n + 1] == SortUpTo(t, n + 1)
  {
    var sorted := lo + n;
    SortUpToGrows(t, n, cur, lo, scan);
    Shifted(cur, after, lo, sorted, scan);
    assert cur[lo..sorted] == cur[lo..lo + n];
  }

  /** The body of the outer loop for an element out of place: holds it aside, moves the
      larger elements before it one place right, and stores it in the gap. */
  method ShiftInsert(a: array<Item>, lo: int, sorted: int) returns (scan: int)
    requires 0 <= lo < sorted < a.Length && a[sorted - 1].key > a[sorted].key
    modifies a
    ensures lo <= scan < sorted && a[scan] == old(a[sorted])
    ensures forall k :: 0 <= k < a.Length && !(scan <= k <= sorted) ==> a[k] == old(a[k])
    ensures forall k :: scan < k <= sorted ==> a[k] == old(a[k - 1])
    ensures old(a[scan]).key > old(a[sorted]).key
    ensures lo < scan ==> old(a[scan - 1]).key <= old(a[sorted]).key
    ensures forall k :: scan <= k < sorted ==> old(a[k]).key > old(a[sorted]).key
  {
    var temp := a[sorted];
    scan := sorted;
    a[scan] := a[scan - 1];
    scan := scan - 1;
    while scan != lo && a[scan - 1].key > temp.key
      invariant lo <= scan < sorted
      invariant forall k :: 0 <= k < a.Length && !(scan < k <= sorted) ==> a[k] == old(a[k])
      invariant forall k :: scan < k <= sorted ==> a[k] == old(a[k - 1])
      invariant forall k :: scan <= k < sorted ==> old(a[k]).key > temp.key
    {
      a[scan] := a[scan - 1];
      scan := scan - 1;
    }
    a[scan] := temp;
  }

  /** One iteration of the outer loop: with `a[lo..sorted]` the reference
      sort of the first elements of `t` and `a[sorted]` the next one, the
      prefix grows by that element. */
  method InsertNext(a: array<Item>, lo: int, sorted: int, ghost t: seq<Item>)
    requires 0 <= lo < sorted < a.Length && sorted - lo < |t|
    requires a[lo..sorted] == SortUpTo(t, sorted - lo) && a[sorted] == t[sorted - lo]
    modifies a
    ensures a[..lo] == old(a[..lo]) && a[sorted + 1..] == old(a[sorted + 1..])
    ensures a[lo..sorted + 1] == SortUpTo(t, sorted - lo + 1)
  {
    ghost var cur, n := a[..], sorted - lo;
    assert cur[sorted - 1] == cur[lo..sorted][n - 1];
    if a[sorted - 1].key <= a[sorted].key {
      // Already in place: the held element would go straight back.
      InsertStep(cur, cur, t, lo, n, sorted);
    } else {
      var scan := ShiftInsert(a, lo, sorted);
      InsertStep(cur, a[..], t, lo, n, scan);
    }
  }

  /** Sorts `a[lo..hi]` stably in place. */
  method InsertionSort(a: array<Item>, lo: int, hi: int)
    requires 0 <= lo <= hi <= a.Length
    modifies a
    ensures a[..lo] == old(a[..lo]) && a[hi..] == old(a[hi..])
    ensures a[lo..hi] == Sort(old(a[lo..hi]))
  {
    ghost var orig := a[..];
    ghost var t := orig[lo..hi];
    if hi - lo <= 1 {
      SortShort(t);
      return;
    }
    var sorted := lo + 1;
    assert a[lo..sorted] == [t[0]];
    while sorted != hi
      invariant lo < sorted <= hi
      invariant a[..lo] == orig[..lo] && a[sorted..] == orig[sorted..]
      invariant a[lo..sorted] == SortUpTo(t, sorted - lo)
    {
      ghost var before := a[..];
      assert before[sorted] == orig[sorted] == t[sorted - lo];
      assert before[sorted + 1..] == orig[sorted + 1..];
      InsertNext(a, lo, sorted, t);
      sorted := sorted + 1;
    }
  }
}
