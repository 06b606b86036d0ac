/**
 * `eng::reverse` and `eng::reverse_strictly_decreasing`
 * (src/eng/algorithm/stable_sort.h:8-37): in-place reversal of a range, and
 * the pre-pass of the stable sort that reverses every strictly decreasing
 * run longer than a tolerance.
 */
module Reversal {
  import opened SortSpec

  // ---------------------------------------------------------------------
  // reverse
  // ---------------------------------------------------------------------

  /** `s` back to front. */
  function Reversed<T>(s: seq<T>): (r: seq<T>)
    ensures |r| == |s|
  {
    if s == [] then [] else [s[|s| - 1]] + Reversed(s[..|s| - 1])
  }

  lemma {:induction false} ReversedAt<T>(s: seq<T>, k: int)
    requires 0 <= k < |s|
    ensures Reversed(s)[k] == s[|s| - 1 - k]
  {
    if k > 0 {
      ReversedAt(s[..|s| - 1], k - 1);
    }
  }

  /** Reversal turns a concatenation around. */
  lemma {:induction false} ReversedAppend<T>(x: seq<T>, y: seq<T>)
    ensures Reversed(x + y) == Reversed(y) + Reversed(x)
    decreases |y|
  {
    if y == [] {
      assert x + y == x;
    } else {
      assert (x + y)[..|x + y| - 1] == x + y[..|y| - 1];
      ReversedAppend(x, y[..|y| - 1]);
    }
  }

  /** Reversing twice gives back the original. */
  lemma ReversedInvolution<T>(s: seq<T>)
    ensures Reversed(Reversed(s)) == s
  {
    forall k | 0 <= k < |s|
      ensures Reversed(Reversed(s))[k] == s[k]
    {
      ReversedAt(Reversed(s), k);
      ReversedAt(s, |s| - 1 - k);
    }
  }

  lemma ReversedShort<T>(s: seq<T>)
    requires |s| <= 1
    ensures Reversed(s) == s
  {
    if |s| == 1 {
      assert s[..0] == [];
      assert Reversed(s) == [s[0]] + Reversed(s[..0]);
    }
  }

  /** A sequence that agrees pointwise with `s` read backwards is `Reversed(s)`. */
  lemma ReversedPointwise<T>(s: seq<T>, r: seq<T>)
    requires |r| == |s|
    requires forall k :: 0 <= k < |s| ==> r[k] == s[|s| - 1 - k]
    ensures r == Reversed(s)
  {
    forall k | 0 <= k < |s|
      ensures r[k] == Reversed(s)[k]
    {
      ReversedAt(s, k);
    }
  }

  /** Swaps elements from both ends of `a[lo..hi]` towards the middle. */
  method Reverse<T>(a: array<T>, lo: int, hi: int)
    requires 0 <= lo <= hi <= a.Length
    modifies a
    ensures a[..lo] == old(a[..lo]) && a[hi..] == old(a[hi..])
    ensures a[lo..hi] == Reversed(old(a[lo..hi]))
  {
    var first, last := lo, hi - 1;
    while first < last
      invariant lo <= first && last < hi && first - lo == hi - 1 - last
      invariant first <= last + 1
      invariant forall k :: lo <= k < first ==> a[k] == old(a[lo + hi - 1 - k])
      invariant forall k :: last < k < hi ==> a[k] == old(a[lo + hi - 1 - k])
      invariant forall k :: 0 <= k < a.Length && !(lo <= k < first) && !(last < k < hi) ==> a[k] == old(a[k])
    {
      a[first], a[last] := a[last], a[first];
      first, last := first + 1, last - 1;
    }
    forall k | 0 <= k < hi - lo
      ensures a[lo..hi][k] == old(a[lo..hi])[hi - lo - 1 - k]
    {
      assert a[lo..hi][k] == a[lo + k];
    }
    ReversedPointwise(old(a[lo..hi]), a[lo..hi]);
  }

  // ---------------------------------------------------------------------
  // reverse_strictly_decreasing
  // ---------------------------------------------------------------------

  /** Strictly decreasing by key: in particular no two elements share a key. */
  predicate StrictlyDecreasing(s: seq<Item>) {
    forall i, j :: 0 <= i < j < |s| ==> s[i].key > s[j].key
  }

  /** Where the maximal strictly decreasing run of `s` that starts at `b` ends. */
  function RunEnd(s: seq<Item>, b: int): (e: int)
    requires 0 <= b < |s|
    ensures b < e <= |s|
    decreases |s| - b
  {
    if b + 1 == |s| || s[b].key <= s[b + 1].key then b + 1 else RunEnd(s, b + 1)
  }

  /** The run `RunEnd` delimits is strictly decreasing and cannot be extended. */
  lemma {:induction false} RunEndMaximal(s: seq<Item>, b: int)
    requires 0 <= b < |s|
    ensures StrictlyDecreasing(s[b..RunEnd(s, b)])
    ensures RunEnd(s, b) == |s| || s[RunEnd(s, b) - 1].key <= s[RunEnd(s, b)].key
    decreases |s| - b
  {
    if !(b + 1 == |s| || s[b].key <= s[b + 1].key) {
      RunEndMaximal(s, b + 1);
      var e := RunEnd(s, b);
      var t, u := s[b..e], s[b + 1..e];
      forall i, j | 0 <= i < j < |t|
        ensures t[i].key > t[j].key
      {
        if i == 0 {
          if j > 1 {
            assert u[0].key > u[j - 1].key;
          }
        } else {
          assert t[i] == u[i - 1] && t[j] == u[j - 1];
        }
      }
    }
  }

  /** A strictly decreasing stretch from `b` that cannot be extended is the maximal run. */
  lemma {:induction false} RunEndIs(s: seq<Item>, b: int, e: int)
    requires 0 <= b < e <= |s|
    requires StrictlyDecreasing(s[b..e]) && (e == |s| || s[e - 1].key <= s[e].key)
    ensures RunEnd(s, b) == e
    decreases e - b
  {
    if e > b + 1 {
      var t := s[b..e];
      assert t[0] == s[b] && t[1] == s[b + 1];
      assert s[b + 1..e] == t[1..];
      RunEndIs(s, b + 1, e);
    }
  }

  /** What becomes of one maximal run: reversed when longer than `tolerance`. */
  function RunPiece(run: seq<Item>, tolerance: nat): (r: seq<Item>)
    ensures |r| == |run|
  {
    if |run| > tolerance then Reversed(run) else run
  }

  /** `s[b..]` normalised: every maximal strictly decreasing run longer than
      `tolerance` reversed, every other element left in place. */
  function NormalizeFrom(s: seq<Item>, b: int, tolerance: nat): (r: seq<Item>)
    requires 0 <= b <= |s|
    ensures |r| == |s| - b
    decreases |s| - b
  {
    if b == |s| then [] else RunPiece(s[b..RunEnd(s, b)], tolerance) + NormalizeFrom(s, RunEnd(s, b), tolerance)
  }

  /** The result `reverse_strictly_decreasing` leaves in its range. */
  function NormalizeRuns(s: seq<Item>, tolerance: nat): (r: seq<Item>)
    ensures |r| == |s|
  {
    NormalizeFrom(s, 0, tolerance)
  }

  /** The scan as `reverse_strictly_decreasing` performs it: the run under
      way starts at `b` and has been found to reach `e`; it is extended while
      the next element is smaller, and otherwise closed. */
  function ScanRuns(s: seq<Item>, b: int, e: int, tolerance: nat): (r: seq<Item>)
    requires 0 <= b <= |s| && b < e <= |s| + 1 && (b < |s| ==> e <= |s|)
    ensures |r| == |s| - b
    decreases |s| + 1 - e
  {
    if b == |s| then []
    else if e < |s| && s[e - 1].key > s[e].key then ScanRuns(s, b, e + 1, tolerance)
    else RunPiece(s[b..e], tolerance) + ScanRuns(s, e, e + 1, tolerance)
  }

  /** The scan extends the run under way past a smaller next element. */
  lemma ScanExtends(s: seq<Item>, b: int, e: int, tolerance: nat)
    requires 0 <= b < e < |s| && s[e - 1].key > s[e].key
    ensures ScanRuns(s, b, e, tolerance) == ScanRuns(s, b, e + 1, tolerance)
    ensures RunEnd(s, e - 1) == RunEnd(s, e)
  {
  }

  /** The scan closes the run under way where the maximal run ends. */
  lemma ScanCloses(s: seq<Item>, b: int, e: int, tolerance: nat)
    requires 0 <= b < e <= |s| && RunEnd(s, b) == RunEnd(s, e - 1)
    requires !(e < |s| && s[e - 1].key > s[e].key)
    ensures ScanRuns(s, b, e, tolerance) == RunPiece(s[b..e], tolerance) + ScanRuns(s, e, e + 1, tolerance)
    ensures NormalizeFrom(s, b, tolerance) == RunPiece(s[b..e], tolerance) + NormalizeFrom(s, e, tolerance)
  {
    assert RunEnd(s, e - 1) == e;
  }

  /** The scan cuts the sequence exactly at the ends of its maximal runs. */
  lemma {:induction false} ScanRunsIsNormalize(s: seq<Item>, b: int, e: int, tolerance: nat)
    requires 0 <= b <= |s| && b < e <= |s| + 1
    requires b < |s| ==> e <= |s| && RunEnd(s, b) == RunEnd(s, e - 1)
    ensures ScanRuns(s, b, e, tolerance) == NormalizeFrom(s, b, tolerance)
    decreases |s| + 1 - e
  {
    if b < |s| {
      if e < |s| && s[e - 1].key > s[e].key {
        ScanExtends(s, b, e, tolerance);
        ScanRunsIsNormalize(s, b, e + 1, tolerance);
      } else {
        ScanCloses(s, b, e, tolerance);
        ScanRunsIsNormalize(s, e, e + 1, tolerance);
      }
    }
  }

  lemma ScanIsNormalizeRuns(s: seq<Item>, tolerance: nat)
    ensures ScanRuns(s, 0, 1, tolerance) == NormalizeRuns(s, tolerance)
  {
    ScanRunsIsNormalize(s, 0, 1, tolerance);
  }

  lemma Regroup(x: seq<Item>, y: seq<Item>, z: seq<Item>)
    ensures (x + y) + z == x + (y + z)
  {
  }

  /** The array around a closed run: `cur` before it is handled, `after` once it is. */
  lemma ScanStep(cur: seq<Item>, after: seq<Item>, orig: seq<Item>, lo: int, hi: int, b: int, e: int, done: seq<Item>, tolerance: nat)
    requires 0 <= lo <= b < e <= hi <= |orig| && |cur| == |orig| && |after| == |orig|
    requires cur[..lo] == orig[..lo] && cur[lo..b] == done && cur[b..] == orig[b..]
    requires after[..b] == cur[..b] && after[b..e] == RunPiece(cur[b..e], tolerance) && after[e..] == cur[e..]
    ensures after[..lo] == orig[..lo] && after[e..] == orig[e..]
    ensures after[lo..e] == done + RunPiece(orig[lo..hi][b - lo..e - lo], tolerance)
  {
    var run := orig[lo..hi][b - lo..e - lo];
    forall k | 0 <= k < e - b
      ensures cur[b..e][k] == run[k]
    {
      assert cur[b..e][k] == cur[b..][k] == orig[b..][k] == orig[b + k];
      assert run[k] == orig[lo..hi][b - lo + k] == orig[b + k];
    }
    assert cur[b..e] == run;
    assert after[lo..e] == after[..b][lo..] + after[b..e];
    assert after[..lo] == after[..b][..lo];
  }

  /** Splits `a[lo..hi]` into maximal strictly decreasing runs and reverses in
      place each one longer than `tolerance`. The source reads the element at
      the run end before testing that the end was reached (one element past
      the range once the scan is there); here the bound is checked first. */
  method ReverseStrictlyDecreasing(a: array<Item>, lo: int, hi: int, tolerance: nat)
    requires 0 <= lo <= hi <= a.Length
    modifies a
    ensures a[..lo] == old(a[..lo]) && a[hi..] == old(a[hi..])
    ensures a[lo..hi] == NormalizeRuns(old(a[lo..hi]), tolerance)
  {
    ghost var orig := a[..];
    ghost var s := orig[lo..hi];
    ghost var whole := ScanRuns(s, 0, 1, tolerance);
    ghost var done: seq<Item> := [];
    var runBegin, runEnd := lo, lo + 1;
    while runBegin != hi
      invariant lo <= runBegin <= hi && runBegin < runEnd <= hi + 1
      invariant runBegin < hi ==> runEnd <= hi
      invariant a[..lo] == orig[..lo] && a[lo..runBegin] == done && a[runBegin..] == orig[runBegin..]
      invariant whole == done + ScanRuns(s, runBegin - lo, runEnd - lo, tolerance)
      decreases hi + 1 - runEnd
    {
      if runEnd != hi && a[runEnd - 1].key > a[runEnd].key {
        assert a[runEnd - 1] == s[runEnd - 1 - lo] && a[runEnd] == s[runEnd - lo];
      } else {
        assert runEnd != hi ==> a[runEnd - 1] == s[runEnd - 1 - lo] && a[runEnd] == s[runEnd - lo];
        ghost var cur := a[..];
        ghost var piece := RunPiece(s[runBegin - lo..runEnd - lo], tolerance);
        Regroup(done, piece, ScanRuns(s, runEnd - lo, runEnd + 1 - lo, tolerance));
        if runEnd - runBegin > tolerance {
          Reverse(a, runBegin, runEnd);
        }
        ScanStep(cur, a[..], orig, lo, hi, runBegin, runEnd, done, tolerance);
        done := done + piece;
        runBegin := runEnd;
      }
      runEnd := runEnd + 1;
    }
    assert a[lo..hi] == a[lo..runBegin];
    ScanIsNormalizeRuns(s, tolerance);
  }

  // ---------------------------------------------------------------------
  // Properties of the normalisation
  // ---------------------------------------------------------------------

  lemma {:induction false} ReversedWithKey(s: seq<Item>, k: int)
    ensures WithKey(Reversed(s), k) == Reversed(WithKey(s, k))
    decreases |s|
  {
    if |s| > 0 {
      var init, last := s[..|s| - 1], s[|s| - 1];
      var w := WithKey([last], k);
      assert s == init + [last];
      assert Reversed(s) == [last] + Reversed(init);
      ReversedWithKey(init, k);
      WithKeyAppend([last], Reversed(init), k);
      WithKeyAppend(init, [last], k);
      ReversedAppend(WithKey(init, k), w);
      ReversedShort(w);
    }
  }

  lemma {:induction false} StrictlyDecreasingWithKey(s: seq<Item>, k: int)
    requires StrictlyDecreasing(s)
    ensures |WithKey(s, k)| <= 1
  {
    if s != [] {
      if s[0].key == k {
        WithKeyAbsent(s[1..], k);
      } else {
        StrictlyDecreasingWithKey(s[1..], k);
      }
    }
  }

  /** Reversing a strictly decreasing run moves no two equal elements past each other. */
  lemma ReverseDecreasingStable(s: seq<Item>)
    requires StrictlyDecreasing(s)
    ensures StablePermutation(Reversed(s), s)
  {
    forall k
      ensures WithKey(Reversed(s), k) == WithKey(s, k)
    {
      ReversedWithKey(s, k);
      StrictlyDecreasingWithKey(s, k);
      ReversedShort(WithKey(s, k));
    }
  }

  lemma {:induction false} NormalizeFromStable(s: seq<Item>, b: int, tolerance: nat)
    requires 0 <= b <= |s|
    ensures StablePermutation(NormalizeFrom(s, b, tolerance), s[b..])
    decreases |s| - b
  {
    if b < |s| {
      var e := RunEnd(s, b);
      var piece := RunPiece(s[b..e], tolerance);
      RunEndMaximal(s, b);
      NormalizeFromStable(s, e, tolerance);
      if e - b > tolerance {
        ReverseDecreasingStable(s[b..e]);
      }
      assert s[b..] == s[b..e] + s[e..];
      forall k
        ensures WithKey(NormalizeFrom(s, b, tolerance), k) == WithKey(s[b..], k)
      {
        WithKeyAppend(piece, NormalizeFrom(s, e, tolerance), k);
        WithKeyAppend(s[b..e], s[e..], k);
      }
    }
  }

  /** Normalising runs keeps equal elements in their order and loses none. */
  lemma NormalizeRunsStable(s: seq<Item>, tolerance: nat)
    ensures StablePermutation(NormalizeRuns(s, tolerance), s)
  {
    NormalizeFromStable(s, 0, tolerance);
    assert s[0..] == s;
  }

  /** A strictly decreasing sequence longer than the tolerance comes out ascending. */
  lemma NormalizeDecreasing(s: seq<Item>, tolerance: nat)
    requires s != [] && StrictlyDecreasing(s) && |s| > tolerance
    ensures NormalizeRuns(s, tolerance) == Reversed(s)
    ensures Sorted(NormalizeRuns(s, tolerance))
  {
    assert s[0..|s|] == s;
    RunEndIs(s, 0, |s|);
    forall i, j | 0 <= i < j < |s|
      ensures Reversed(s)[i].key <= Reversed(s)[j].key
    {
      ReversedAt(s, i);
      ReversedAt(s, j);
    }
  }

  /** A strictly decreasing sequence no longer than the tolerance is left as it is. */
  lemma NormalizeShortDecreasing(s: seq<Item>, tolerance: nat)
    requires s != [] && StrictlyDecreasing(s) && |s| <= tolerance
    ensures NormalizeRuns(s, tolerance) == s
  {
    assert s[0..|s|] == s;
    RunEndIs(s, 0, |s|);
  }

  /** With the tolerance 2 of stable_sort, the run 5 4 stays put and the run
      5 4 3 2 1 comes out ascending. */
  lemma ToleranceTwoExamples()
    ensures NormalizeRuns([Item(5, 0), Item(4, 1)], 2) == [Item(5, 0), Item(4, 1)]
    ensures NormalizeRuns([Item(5, 0), Item(4, 1), Item(3, 2), Item(2, 3), Item(1, 4)], 2)
         == [Item(1, 4), Item(2, 3), Item(3, 2), Item(4, 1), Item(5, 0)]
  {
    NormalizeShortDecreasing([Item(5, 0), Item(4, 1)], 2);
    var s := [Item(5, 0), Item(4, 1), Item(3, 2), Item(2, 3), Item(1, 4)];
    NormalizeDecreasing(s, 2);
    ReversedPointwise(s, [Item(1, 4), Item(2, 3), Item(3, 2), Item(4, 1), Item(5, 0)]);
  }

  /** On input already in non-decreasing order every maximal run has one
      element, so with a tolerance of at least one nothing moves. */
  lemma {:induction false} NormalizeFromSorted(s: seq<Item>, b: int, tolerance: nat)
    requires Sorted(s) && tolerance >= 1 && 0 <= b <= |s|
    ensures NormalizeFrom(s, b, tolerance) == s[b..]
    decreases |s| - b
  {
    if b < |s| {
      assert RunEnd(s, b) == b + 1;
      NormalizeFromSorted(s, b + 1, tolerance);
      assert s[b..] == s[b..b + 1] + s[b + 1..];
    }
  }

  lemma NormalizeSorted(s: seq<Item>, tolerance: nat)
    requires Sorted(s) && tolerance >= 1
    ensures NormalizeRuns(s, tolerance) == s
  {
    NormalizeFromSorted(s, 0, tolerance);
    assert s[0..] == s;
  }
}
