/**
 * The adaptive stable merge sort of `eng::stable_sort` and the four routines
 * it is built from, working in place on an array of `Item`s compared by key.
 * Each routine is specified by a function on sequences (`Reversed`,
 * `NormalizeRuns`, `Merge`, `Sort`) whose properties are proved as lemmas.
 */
module StableSort {
  import opened SortSpec
  import opened Reversal
  import opened Insertion
  import opened Merging

  /** Runs are only reversed when longer than this (stable_sort.h:113). */
  const ReversalTolerance: nat := 2
  /** The minimum run is halved while it is at least this (stable_sort.h:107). */
  const MinRunThreshold: nat := 10

  function Min(x: int, y: int): int {
    if x < y then x else y
  }

  // ---------------------------------------------------------------------
  // Blocks of sorted runs, the invariant of the chunk and merge loops
  // ---------------------------------------------------------------------

  /** Every consecutive block of `w` elements, the last possibly shorter, is sorted. */
  ghost predicate SortedBlocks(s: seq<Item>, w: nat)
    requires w > 0
    decreases |s|
  {
    if |s| <= w then Sorted(s) else Sorted(s[..w]) && SortedBlocks(s[w..], w)
  }

  /** `s` is made of whole sorted blocks of exactly `w` elements. */
  ghost predicate WholeSortedBlocks(s: seq<Item>, w: nat)
    requires w > 0
    decreases |s|
  {
    |s| == 0 || (w <= |s| && Sorted(s[..w]) && WholeSortedBlocks(s[w..], w))
  }

  /** Blocks of `w` are sorted up to position `i` (the whole of `s` once `i` has passed its end). */
  ghost predicate BlocksUpTo(s: seq<Item>, i: nat, w: nat)
    requires w > 0
  {
    if i <= |s| then WholeSortedBlocks(s[..i], w) else SortedBlocks(s, w)
  }

  lemma SortedSlice(s: seq<Item>, lo: int, hi: int)
    requires Sorted(s) && 0 <= lo <= hi <= |s|
    ensures Sorted(s[lo..hi])
  {
  }

  lemma SortedConcat(x: seq<Item>, y: seq<Item>)
    requires Sorted(x) && Sorted(y)
    requires x != [] && y != [] ==> x[|x| - 1].key <= y[0].key
    ensures Sorted(x + y)
  {
    var s := x + y;
    forall i, j | 0 <= i < j < |s|
      ensures s[i].key <= s[j].key
    {
      if i < |x| <= j {
        assert s[i].key <= x[|x| - 1].key;
      }
    }
  }

  lemma {:induction false} WholeBlocksGrow(x: seq<Item>, y: seq<Item>, w: nat)
    requires w > 0 && WholeSortedBlocks(x, w) && Sorted(y) && |y| == w
    ensures WholeSortedBlocks(x + y, w)
    decreases |x|
  {
    if x == [] {
      assert x + y == y && y[..w] == y && y[w..] == [];
    } else {
      assert (x + y)[..w] == x[..w];
      assert (x + y)[w..] == x[w..] + y;
      WholeBlocksGrow(x[w..], y, w);
    }
  }

  lemma {:induction false} WholeBlocksClose(x: seq<Item>, y: seq<Item>, w: nat)
    requires w > 0 && WholeSortedBlocks(x, w) && Sorted(y) && |y| <= w
    ensures SortedBlocks(x + y, w)
    decreases |x|
  {
    if x == [] {
      assert x + y == y;
    } else if |x + y| <= w {
      assert x + y == x[..w];
    } else {
      assert (x + y)[..w] == x[..w];
      assert (x + y)[w..] == x[w..] + y;
      WholeBlocksClose(x[w..], y, w);
    }
  }

  lemma WholeBlocksAdvance(s: seq<Item>, i: nat, w: nat)
    requires w > 0 && i + w <= |s| && WholeSortedBlocks(s[..i], w) && Sorted(s[i..i + w])
    ensures WholeSortedBlocks(s[..i + w], w)
  {
    var x, y := s[..i], s[i..i + w];
    assert s[..i + w] == x + y;
    WholeBlocksGrow(x, y, w);
  }

  lemma BlocksAdvanceToEnd(s: seq<Item>, i: nat, w: nat)
    requires w > 0 && i < |s| < i + w && WholeSortedBlocks(s[..i], w) && Sorted(s[i..])
    ensures SortedBlocks(s, w)
  {
    var x, y := s[..i], s[i..];
    assert s == x + y;
    WholeBlocksClose(x, y, w);
  }

  /** A sorted block of `w` (or the short sorted tail) after `i` moves the bound on by `w`. */
  lemma BlocksAdvance(s: seq<Item>, i: nat, w: nat)
    requires w > 0 && i < |s| && BlocksUpTo(s, i, w)
    requires Sorted(s[i..Min(i + w, |s|)])
    ensures BlocksUpTo(s, i + w, w)
  {
    if i + w <= |s| {
      WholeBlocksAdvance(s, i, w);
    } else {
      assert s[i..Min(i + w, |s|)] == s[i..];
      BlocksAdvanceToEnd(s, i, w);
    }
  }

  /** The first two blocks of `t` are sorted, and the blocks after them still are. */
  lemma LeadingPair(t: seq<Item>, w: nat)
    requires w > 0 && SortedBlocks(t, w) && |t| > w
    ensures Sorted(t[..w])
    ensures Sorted(t[w..Min(2 * w, |t|)])
    ensures |t| >= 2 * w ==> SortedBlocks(t[2 * w..], w)
  {
    var u := t[w..];
    assert SortedBlocks(u, w);
    if |u| <= w {
      assert t[w..|t|] == u;
      if |t| == 2 * w {
        assert t[2 * w..] == [];
      }
    } else {
      assert t[w..2 * w] == u[..w];
      assert t[2 * w..] == u[w..];
    }
  }

  // ---------------------------------------------------------------------
  // stable_sort
  // ---------------------------------------------------------------------

  /** The minimum run length of stable_sort: the length halved, rounding up,
      until it drops below the threshold. */
  function MinRunOf(n: nat): (r: nat)
    decreases n
  {
    if n < MinRunThreshold then n else MinRunOf((n + 1) / 2)
  }

  lemma {:induction false} MinRunBounds(n: nat)
    ensures n < MinRunThreshold ==> MinRunOf(n) == n
    ensures n >= MinRunThreshold ==> 5 <= MinRunOf(n) < MinRunThreshold
    decreases n
  {
    if n >= MinRunThreshold {
      MinRunBounds((n + 1) / 2);
    }
  }

  /** The loop of stable_sort that computes the minimum run. */
  method MinRun(n: nat) returns (minRun: nat)
    ensures minRun == MinRunOf(n)
  {
    minRun := n;
    while minRun >= MinRunThreshold
      invariant MinRunOf(minRun) == MinRunOf(n)
    {
      minRun := (minRun + 1) / 2;
    }
  }

  /** The merge-pass invariant at pair index `i` for window `w`: everything
      before `i` is sorted blocks of `2 * w`, everything from `i` on is still
      sorted blocks of `w`. */
  ghost predicate PassInvariant(s: seq<Item>, i: nat, w: nat)
    requires w > 0
  {
    BlocksUpTo(s, i, 2 * w) && (i <= |s| ==> SortedBlocks(s[i..], w))
  }

  /** The runs the pass is about to merge are sorted. */
  lemma PassRuns(s: seq<Item>, i: nat, w: nat)
    requires w > 0 && PassInvariant(s, i, w) && i + w < |s|
    ensures Sorted(s[i..i + w])
    ensures Sorted(s[i + w..Min(i + 2 * w, |s|)])
    ensures i + 3 * w < |s| ==> Sorted(s[i + 2 * w..i + 3 * w])
    ensures i + 3 * w < |s| ==> Sorted(s[i + 3 * w..Min(i + 4 * w, |s|)])
  {
    var t := s[i..];
    LeadingPair(t, w);
    assert t[..w] == s[i..i + w];
    assert t[w..Min(2 * w, |t|)] == s[i + w..Min(i + 2 * w, |s|)];
    if i + 3 * w < |s| {
      var u := t[2 * w..];
      assert u == s[i + 2 * w..];
      LeadingPair(u, w);
      assert u[..w] == s[i + 2 * w..i + 3 * w];
      assert u[w..Min(2 * w, |u|)] == s[i + 3 * w..Min(i + 4 * w, |s|)];
    }
  }

  /** After the pair at `i` has become one sorted run, the pass moves on to `i + 2 * w`. */
  lemma PassPairDone(s: seq<Item>, t: seq<Item>, i: nat, w: nat, m: seq<Item>)
    requires w > 0 && PassInvariant(s, i, w) && i + w < |s|
    requires Sorted(m) && |m| == Min(i + 2 * w, |s|) - i
    requires t == s[..i] + m + s[i + |m|..]
    ensures PassInvariant(t, i + 2 * w, w)
  {
    var back := i + |m|;
    assert t[..i] == s[..i];
    assert t[i..back] == m;
    assert t[back..] == s[back..];
    BlocksAdvance(t, i, 2 * w);
    if i + 2 * w <= |s| {
      LeadingPair(s[i..], w);
      assert s[i..][2 * w..] == s[i + 2 * w..];
    }
  }

  /** After the ping-pong merge has made the two pairs at `i` one sorted run,
      the pass moves on to `i + 4 * w`. */
  lemma PassPingPongDone(s: seq<Item>, t: seq<Item>, i: nat, w: nat, m: seq<Item>)
    requires w > 0 && PassInvariant(s, i, w) && i + 3 * w < |s|
    requires Sorted(m) && |m| == Min(i + 4 * w, |s|) - i
    requires t == s[..i] + m + s[i + |m|..]
    ensures PassInvariant(t, i + 4 * w, w)
  {
    // As two pairs merged one after the other.
    var m1, m2 := m[..2 * w], m[2 * w..];
    var u := s[..i] + m1 + s[i + 2 * w..];
    SortedSlice(m, 0, 2 * w);
    assert m[0..2 * w] == m1;
    PassPairDone(s, u, i, w, m1);
    SpliceInTwo(s, t, i, 2 * w, m);
    SortedSlice(m, 2 * w, |m|);
    assert m[2 * w..|m|] == m2;
    PassPairDone(u, t, i + 2 * w, w, m2);
  }

  /** Splicing `m` into `s` at `i` is splicing its first `p` elements and then the rest. */
  lemma SpliceInTwo(s: seq<Item>, t: seq<Item>, i: nat, p: nat, m: seq<Item>)
    requires i + |m| <= |s| && p <= |m| && t == s[..i] + m + s[i + |m|..]
    ensures var u := s[..i] + m[..p] + s[i + p..];
      t == u[..i + p] + m[p..] + u[i + |m|..]
  {
    var u := s[..i] + m[..p] + s[i + p..];
    assert u[..i + p] == s[..i] + m[..p];
    assert u[i + |m|..] == s[i + |m|..];
    assert m == m[..p] + m[p..];
  }

  /** Whether the pass merges the pair at `i` together with the next pair
      (ping-pong): both pairs are out of order and the next one exists. */
  predicate PingPong(s: seq<Item>, i: nat, w: nat)
    requires i + w < |s| && w > 0
  {
    s[i + w - 1].key > s[i + w].key && i + 3 * w < |s| && s[i + 3 * w - 1].key > s[i + 3 * w].key
  }

  /** A pair of sorted runs already in order is its own reference sort. */
  lemma PairInOrder(s: seq<Item>, i: int, mid: int, back: int)
    requires 0 <= i < mid < back <= |s| && Sorted(s[i..mid]) && Sorted(s[mid..back])
    requires s[mid - 1].key <= s[mid].key
    ensures s == s[..i] + Sort(s[i..back]) + s[back..]
  {
    assert s[i..mid] + s[mid..back] == s[i..back];
    SortedConcat(s[i..mid], s[mid..back]);
    SortOfSorted(s[i..back]);
    assert s == s[..i] + s[i..back] + s[back..];
  }

  /** Merging a pair of sorted runs yields the reference sort of the pair. */
  lemma PairMerged(s: seq<Item>, i: int, mid: int, back: int)
    requires 0 <= i <= mid <= back <= |s| && Sorted(s[i..mid]) && Sorted(s[mid..back])
    ensures Merge(s[i..mid], s[mid..back]) == Sort(s[i..back])
  {
    assert s[i..mid] + s[mid..back] == s[i..back];
    MergeIsSort(s[i..mid], s[mid..back]);
  }

  /** Merging the reference sorts of two sequences yields the reference sort
      of both together. */
  lemma SortsMerged(x: seq<Item>, y: seq<Item>)
    ensures Merge(Sort(x), Sort(y)) == Sort(x + y)
  {
    SortUpToSorted(x, |x|);
    SortUpToSorted(y, |y|);
    MergeIsSort(Sort(x), Sort(y));
    SortHalves(x, y);
  }

  /** The same for two adjacent ranges of `s`. */
  lemma SortsMergedAt(s: seq<Item>, i: int, j: int, back: int)
    requires 0 <= i <= j <= back <= |s|
    ensures Merge(Sort(s[i..j]), Sort(s[j..back])) == Sort(s[i..back])
  {
    var x, y := s[i..j], s[j..back];
    assert x + y == s[i..back];
    SortsMerged(x, y);
  }

  /** The merge of the sorted runs `s[lo..mid]` and `s[mid..hi]` of `a`
      into the buffer from `out`: the runs come out as their reference sort. */
  method MergeRuns(a: array<Item>, lo: nat, mid: nat, hi: nat, buffer: array<Item>, out: nat, ghost s: seq<Item>)
    requires a != buffer && lo <= mid <= hi <= a.Length && out + (hi - lo) <= buffer.Length && a[..] == s
    requires Sorted(s[lo..mid]) && Sorted(s[mid..hi])
    modifies buffer
    ensures a[..] == s && buffer[..out] == old(buffer[..out])
    ensures buffer[out..out + (hi - lo)] == Sort(s[lo..hi])
  {
    MergeInto(a, lo, mid, mid, hi, buffer, out);
    Placed(buffer[..], old(buffer[..out]), Merge(s[lo..mid], s[mid..hi]), old(buffer[out + (mid - lo) + (hi - mid)..]));
    PairMerged(s, lo, mid, hi);
  }

  /** The parts of a sequence made of three. */
  lemma Placed<T>(r: seq<T>, x: seq<T>, y: seq<T>, z: seq<T>)
    requires r == x + y + z
    ensures r[..|x|] == x && r[|x|..|x| + |y|] == y
  {
  }

  /** The second merge of the ping-pong: the two halves `x` and `y` of
      `buffer[..len]` merged straight back into `a` from `i`. */
  method MergeBack(buffer: array<Item>, a: array<Item>, i: nat, h: nat, len: nat, ghost x: seq<Item>, ghost y: seq<Item>)
    requires a != buffer && h <= len <= buffer.Length && i + len <= a.Length
    requires buffer[..h] == x && buffer[h..len] == y
    modifies a
    ensures a[..] == old(a[..i]) + Merge(x, y) + old(a[i + len..])
  {
    MergeInto(buffer, 0, h, h, len, a, i);
    assert buffer[0..h] == buffer[..h];
  }

  /** The ping-pong merge of stable_sort: with the pair at `i` of `s`, the
      contents of `a`, already merged into the front of the buffer, merges the
      next pair into the buffer after it, then merges both results from the
      buffer straight back into `a`. */
  method PingPongAt(a: array<Item>, buffer: array<Item>, i: nat, w: nat, ghost s: seq<Item>)
    requires a != buffer && buffer.Length == a.Length && w > 0 && i + 3 * w < a.Length && a[..] == s
    requires buffer[..2 * w] == Sort(s[i..i + 2 * w])
    requires Sorted(s[i + 2 * w..i + 3 * w]) && Sorted(s[i + 3 * w..Min(i + 4 * w, |s|)])
    modifies a, buffer
    ensures a[..] == s[..i] + Sort(s[i..Min(i + 4 * w, |s|)]) + s[Min(i + 4 * w, |s|)..]
  {
    var j := i + 2 * w;
    var back := Min(j + 2 * w, a.Length);
    MergeRuns(a, j, j + w, back, buffer, 2 * w, s);
    MergeBack(buffer, a, i, 2 * w, back - i, Sort(s[i..j]), Sort(s[j..back]));
    SortsMergedAt(s, i, j, back);
  }

  /** The move of the merged pair `m`, the front of the buffer, back into `a` from `i`. */
  method MoveBack(buffer: array<Item>, a: array<Item>, i: nat, len: nat, ghost m: seq<Item>)
    requires a != buffer && len <= buffer.Length && i + len <= a.Length && buffer[..len] == m
    modifies a
    ensures a[..] == old(a[..i]) + m + old(a[i + len..])
  {
    MoveRange(buffer, 0, len, a, i);
    assert buffer[0..len] == buffer[..len];
  }

  /** The rest of the iteration once the pair at `i` of `s`, the contents of
      `a`, has been merged into the front of the buffer: the merged pair is
      moved back unless the next pair exists and is out of order too, in
      which case both are merged ping-pong. Returns where the next iteration
      starts. */
  method MoveBackOrPingPong(a: array<Item>, buffer: array<Item>, i: nat, w: nat, ghost s: seq<Item>) returns (next: nat)
    requires a != buffer && buffer.Length == a.Length && w > 0 && i + w < a.Length && a[..] == s
    requires buffer[..Min(i + 2 * w, |s|) - i] == Sort(s[i..Min(i + 2 * w, |s|)])
    requires i + 3 * w < |s| ==> Sorted(s[i + 2 * w..i + 3 * w]) && Sorted(s[i + 3 * w..Min(i + 4 * w, |s|)])
    modifies a, buffer
    ensures next == if i + 3 * w < |s| && s[i + 3 * w - 1].key > s[i + 3 * w].key then i + 4 * w else i + 2 * w
    ensures a[..] == s[..i] + Sort(s[i..Min(next, |s|)]) + s[Min(next, |s|)..]
  {
    var n := a.Length;
    var back := Min(i + 2 * w, n);
    var j := i + 2 * w;
    var mid := j + w;
    var pingPong := mid < n && a[mid - 1].key > a[mid].key;
    assert pingPong == (i + 3 * w < |s| && s[i + 3 * w - 1].key > s[i + 3 * w].key);
    if !pingPong {
      // Single merge: move the merged pair back.
      MoveBack(buffer, a, i, back - i, Sort(s[i..back]));
      return i + 2 * w;
    }
    PingPongAt(a, buffer, i, w, s);
    next := j + 2 * w;
  }

  /** One iteration of the inner loop of stable_sort at pair index `i` of
      `s`, the contents of `a`. A pair already in order is left alone;
      otherwise it is merged into the buffer, and then either moved back, or,
      when the next pair is out of order too, merged ping-pong with it.
      Returns where the next iteration starts. In every case the range it
      covers ends up as its reference sort and nothing else changes. */
  method MergeAt(a: array<Item>, buffer: array<Item>, i: nat, w: nat, ghost s: seq<Item>) returns (next: nat)
    requires a != buffer && buffer.Length == a.Length && w > 0 && i + w < a.Length && a[..] == s
    requires Sorted(s[i..i + w]) && Sorted(s[i + w..Min(i + 2 * w, |s|)])
    requires i + 3 * w < |s| ==> Sorted(s[i + 2 * w..i + 3 * w]) && Sorted(s[i + 3 * w..Min(i + 4 * w, |s|)])
    modifies a, buffer
    ensures next == if PingPong(s, i, w) then i + 4 * w else i + 2 * w
    ensures a[..] == s[..i] + Sort(s[i..Min(next, |s|)]) + s[Min(next, |s|)..]
    ensures s[i + w - 1].key <= s[i + w].key ==> a[..] == s
  {
    var n := a.Length;
    var mid := i + w;
    var back := Min(i + 2 * w, n);
    if a[mid - 1].key <= a[mid].key {
      // The pair is already in order: nothing moves.
      PairInOrder(s, i, mid, back);
      return i + 2 * w;
    }
    MergeRuns(a, i, mid, back, buffer, 0, s);
    next := MoveBackOrPingPong(a, buffer, i, w, s);
  }

  /** A step of the pass: the range from `i` replaced by its reference sort
      keeps the pass invariant at the next index and the sort of the whole. */
  lemma PassStep(s: seq<Item>, t: seq<Item>, i: nat, w: nat, next: nat)
    requires w > 0 && PassInvariant(s, i, w) && i + w < |s|
    requires next == i + 2 * w || (next == i + 4 * w && i + 3 * w < |s|)
    requires t == s[..i] + Sort(s[i..Min(next, |s|)]) + s[Min(next, |s|)..]
    ensures PassInvariant(t, next, w) && Sort(t) == Sort(s)
  {
    var m := Sort(s[i..Min(next, |s|)]);
    SortUpToSorted(s[i..Min(next, |s|)], Min(next, |s|) - i);
    if next == i + 2 * w {
      PassPairDone(s, t, i, w, m);
    } else {
      PassPingPongDone(s, t, i, w, m);
    }
    SortIdempotent(s[i..Min(next, |s|)]);
    SortReplace(s, i, Min(next, |s|), m);
  }

  /** What one pass for window `w` makes of `s` from pair index `i` on:
      each pair, or two pairs where the pass merges ping-pong, replaced by
      its reference sort, and a last lone run left as it is. */
  ghost function PassResult(s: seq<Item>, i: nat, w: nat): (r: seq<Item>)
    requires w > 0 && i <= |s|
    ensures |r| == |s| - i
    decreases |s| - i
  {
    if i + w >= |s| then s[i..] else
      var next := Min(if PingPong(s, i, w) then i + 4 * w else i + 2 * w, |s|);
      Sort(s[i..next]) + PassResult(s, next, w)
  }

  /** `t` holds the pass's result for `s0` up to `j` and `s0` itself from there on. */
  ghost predicate PassUpTo(s0: seq<Item>, t: seq<Item>, j: nat, w: nat)
    requires w > 0
  {
    j <= |s0| == |t| && t[j..] == s0[j..]
    && t[..j] + PassResult(s0, j, w) == PassResult(s0, 0, w)
  }

  /** The pass decides on ping-pong from positions at or after `i` only. */
  lemma SamePingPong(s: seq<Item>, s0: seq<Item>, i: nat, w: nat)
    requires w > 0 && i + w < |s| == |s0| && s[i..] == s0[i..]
    ensures PingPong(s, i, w) == PingPong(s0, i, w)
  {
    assert s[i + w - 1] == s[i..][w - 1] && s0[i + w - 1] == s0[i..][w - 1];
    assert s[i + w] == s[i..][w] && s0[i + w] == s0[i..][w];
    if i + 3 * w < |s| {
      assert s[i + 3 * w - 1] == s[i..][3 * w - 1] && s0[i + 3 * w - 1] == s0[i..][3 * w - 1];
      assert s[i + 3 * w] == s[i..][3 * w] && s0[i + 3 * w] == s0[i..][3 * w];
    }
  }

  /** With window 1, the pass over 2 1 4 3 finds both pairs out of order,
      merges them ping-pong and leaves 1 2 3 4. */
  lemma PassPingPongExample()
    ensures PassResult([Item(2, 0), Item(1, 1), Item(4, 2), Item(3, 3)], 0, 1)
         == [Item(1, 1), Item(2, 0), Item(3, 3), Item(4, 2)]
  {
    var s := [Item(2, 0), Item(1, 1), Item(4, 2), Item(3, 3)];
    assert PingPong(s, 0, 1);
    assert s[0..4] == s;
  }

  /** One step of `PassResult`: the range up to `end` sorted, then the rest. */
  lemma PassResultStep(s: seq<Item>, i: nat, w: nat, end: nat)
    requires w > 0 && i + w < |s|
    requires end == Min(if PingPong(s, i, w) then i + 4 * w else i + 2 * w, |s|)
    ensures PassResult(s, i, w) == Sort(s[i..end]) + PassResult(s, end, w)
  {
  }

  /** A step of the pass at `i`, decided on the array as it then is, is the
      step `PassResult` takes on the array the pass started from. */
  lemma PassAdvance(s0: seq<Item>, s: seq<Item>, t: seq<Item>, i: nat, w: nat, end: nat)
    requires w > 0 && i + w < |s0| && PassUpTo(s0, s, i, w)
    requires end == Min(if PingPong(s0, i, w) then i + 4 * w else i + 2 * w, |s0|)
    requires |t| == |s| && t[..i] == s[..i] && t[i..end] == Sort(s[i..end]) && t[end..] == s[end..]
    ensures PassUpTo(s0, t, end, w)
  {
    SameTail(s, s0, i, end);
    PassResultStep(s0, i, w, end);
    PrefixAdvance(s0, s, t, i, end, Sort(s0[i..end]), PassResult(s0, end, w), PassResult(s0, 0, w));
  }

  /** Replacing `s[i..end]` by the next piece of `whole` extends the finished prefix to `end`. */
  lemma PrefixAdvance(s0: seq<Item>, s: seq<Item>, t: seq<Item>, i: nat, end: nat,
                      piece: seq<Item>, rest: seq<Item>, whole: seq<Item>)
    requires i <= end <= |s| == |s0| == |t| && s[i..] == s0[i..]
    requires s[..i] + (piece + rest) == whole
    requires t[..i] == s[..i] && t[i..end] == piece && t[end..] == s[end..]
    ensures t[end..] == s0[end..] && t[..end] + rest == whole
  {
    assert t[..end] == t[..i] + t[i..end];
    assert (s[..i] + piece) + rest == s[..i] + (piece + rest);
    assert s[end..] == s[i..][end - i..];
    assert s0[end..] == s0[i..][end - i..];
  }

  /** Everything the merge pass keeps true at pair index `i`, with `done` the
      index bounded by the length. */
  ghost predicate PassState(s0: seq<Item>, t: seq<Item>, i: nat, done: nat, w: nat)
    requires w > 0
  {
    done == Min(i, |t|) && PassUpTo(s0, t, done, w)
    && PassInvariant(t, i, w) && Sort(t) == Sort(s0)
  }

  /** One step of the merge pass, as `MergeAt` performs it, keeps `PassState`. */
  lemma PassStateStep(s0: seq<Item>, s: seq<Item>, t: seq<Item>, i: nat, done: nat, w: nat, next: nat)
    requires w > 0 && i + w < |s| && PassState(s0, s, i, done, w)
    requires next == if PingPong(s, i, w) then i + 4 * w else i + 2 * w
    requires t == s[..i] + Sort(s[i..Min(next, |s|)]) + s[Min(next, |s|)..]
    ensures PassState(s0, t, next, Min(next, |t|), w)
  {
    var end := Min(next, |s|);
    SamePingPong(s, s0, i, w);
    PassStep(s, t, i, w, next);
    assert t[..i] == s[..i] && t[i..end] == Sort(s[i..end]) && t[end..] == s[end..];
    PassAdvance(s0, s, t, i, w, end);
  }

  /** One pass of the bottom-up merge for window `w` (the inner loop of
      stable_sort): each pair is replaced by its reference sort as
      `PassResult` says, which turns sorted blocks of `w` into sorted blocks
      of `2 * w` without changing the reference sort of the array. */
  method MergePass(a: array<Item>, buffer: array<Item>, w: nat)
    requires a != buffer && buffer.Length == a.Length && w > 0
    requires SortedBlocks(a[..], w)
    modifies a, buffer
    ensures a[..] == PassResult(old(a[..]), 0, w)
    ensures SortedBlocks(a[..], 2 * w)
    ensures Sort(a[..]) == Sort(old(a[..]))
  {
    var n := a.Length;
    var i := 0;
    ghost var s0 := a[..];
    ghost var done: nat := 0;
    assert a[..0] == [] && a[0..] == a[..];
    while i + w < n
      invariant PassState(s0, a[..], i, done, w)
      decreases n - i
    {
      ghost var s := a[..];
      PassRuns(s, i, w);
      var next := MergeAt(a, buffer, i, w, s);
      PassStateStep(s0, s, a[..], i, done, w, next);
      i, done := next, Min(next, n);
    }
    PassEnd(s0, a[..], i, done, w);
  }

  /** When no pair is left, the pass is complete. */
  lemma PassEnd(s0: seq<Item>, t: seq<Item>, i: nat, done: nat, w: nat)
    requires w > 0 && |t| <= i + w && PassState(s0, t, i, done, w)
    ensures t == PassResult(s0, 0, w) && SortedBlocks(t, 2 * w) && Sort(t) == Sort(s0)
  {
    assert t == t[..done] + PassResult(s0, done, w);
    if i <= |t| {
      assert t == t[..i] + t[i..];
      WholeBlocksClose(t[..i], t[i..], 2 * w);
    }
  }

  /** The chunks of `minRun` elements of `s` from position `i` on (the last
      possibly shorter), each replaced by the reference sort of its own
      elements. */
  ghost function SortedChunks(s: seq<Item>, i: nat, minRun: nat): (r: seq<Item>)
    requires minRun > 0 && i <= |s|
    ensures |r| == |s| - i
    decreases |s| - i
  {
    if i == |s| then [] else
      var end := Min(i + minRun, |s|);
      Sort(s[i..end]) + SortedChunks(s, end, minRun)
  }

  /** Every chunk of the result is sorted, so its blocks of `minRun` are. */
  lemma {:induction false} ChunksSortedBlocks(s: seq<Item>, i: nat, minRun: nat)
    requires minRun > 0 && i <= |s|
    ensures SortedBlocks(SortedChunks(s, i, minRun), minRun)
    decreases |s| - i
  {
    if i < |s| {
      var end := Min(i + minRun, |s|);
      var c, r := Sort(s[i..end]), SortedChunks(s, end, minRun);
      SortCorrect(s[i..end]);
      ChunksSortedBlocks(s, end, minRun);
      if |c + r| > minRun {
        assert (c + r)[..minRun] == c && (c + r)[minRun..] == r;
      } else {
        assert c + r == c;
      }
    }
  }

  /** Sorting each chunk on its own keeps the reference sort of the whole. */
  lemma {:induction false} ChunksKeepSort(s: seq<Item>, i: nat, minRun: nat)
    requires minRun > 0 && i <= |s|
    ensures Sort(SortedChunks(s, i, minRun)) == Sort(s[i..])
    decreases |s| - i
  {
    if i < |s| {
      var end := Min(i + minRun, |s|);
      var x, y := s[i..end], s[end..];
      var r := SortedChunks(s, end, minRun);
      ChunksKeepSort(s, end, minRun);
      assert s[i..] == x + y;
      SortIdempotent(x);
      SortHalves(Sort(x), r);
      SortHalves(x, y);
    }
  }

  /** `t` holds the sorted chunks of `s0` up to `j` and `s0` itself from there on. */
  ghost predicate ChunksUpTo(s0: seq<Item>, t: seq<Item>, j: nat, minRun: nat)
    requires minRun > 0
  {
    j <= |s0| == |t| && t[j..] == s0[j..]
    && t[..j] + SortedChunks(s0, j, minRun) == SortedChunks(s0, 0, minRun)
  }

  /** What the chunk loop leaves: sorted blocks of `minRun`, and the same reference sort. */
  lemma ChunkPhase(s: seq<Item>, t: seq<Item>, minRun: nat)
    requires minRun > 0 && t == SortedChunks(s, 0, minRun)
    ensures SortedBlocks(t, minRun) && Sort(t) == Sort(s)
  {
    ChunksSortedBlocks(s, 0, minRun);
    ChunksKeepSort(s, 0, minRun);
    assert s[0..] == s;
  }

  /** The chunk loop of stable_sort: insertion-sorts each chunk of `minRun`
      elements on its own. */
  method SortChunks(a: array<Item>, minRun: nat)
    requires minRun > 0
    modifies a
    ensures a[..] == SortedChunks(old(a[..]), 0, minRun)
  {
    var n := a.Length;
    var i := 0;
    ghost var s0, done := a[..], 0;
    assert a[..0] == [] && s0[0..] == s0;
    while i < n
      invariant done == Min(i, n) && ChunksUpTo(s0, a[..], done, minRun)
    {
      ghost var s := a[..];
      var end := Min(i + minRun, n);
      InsertionSort(a, i, end);
      ChunkDone(s0, s, a[..], i, end, minRun);
      i, done := i + minRun, end;
    }
    assert a[..] == a[..n] + SortedChunks(s0, n, minRun);
  }

  /** After one chunk is sorted, the sorted prefix reaches the chunk's end. */
  lemma ChunkDone(s0: seq<Item>, s: seq<Item>, t: seq<Item>, i: nat, end: nat, minRun: nat)
    requires minRun > 0 && i < end == Min(i + minRun, |s0|)
    requires ChunksUpTo(s0, s, i, minRun) && |t| == |s|
    requires t[..i] == s[..i] && t[end..] == s[end..] && t[i..end] == Sort(s[i..end])
    ensures ChunksUpTo(s0, t, end, minRun)
  {
    SameTail(s, s0, i, end);
    var rest := SortedChunks(s0, end, minRun);
    assert SortedChunks(s0, i, minRun) == Sort(s0[i..end]) + rest;
    PrefixAdvance(s0, s, t, i, end, Sort(s0[i..end]), rest, SortedChunks(s0, 0, minRun));
  }

  /** Two sequences that agree from `i` on agree on every slice from there. */
  lemma SameTail(s: seq<Item>, s0: seq<Item>, i: nat, end: nat)
    requires i <= end <= |s| == |s0| && s[i..] == s0[i..]
    ensures s[i..end] == s0[i..end] && s[end..] == s0[end..]
  {
    assert s[i..end] == s[i..][..end - i];
    assert s0[i..end] == s0[i..][..end - i];
    assert s[end..] == s[i..][end - i..];
    assert s0[end..] == s0[i..][end - i..];
  }

  /** Sorts `a` stably in place: the result is the reference stable sort.
      `usedBuffer` tells whether the merge phase, and with it the scratch
      buffer, was needed. */
  method StableSort(a: array<Item>) returns (ghost usedBuffer: bool)
    modifies a
    ensures a[..] == Sort(old(a[..]))
    ensures Sorted(a[..]) && StablePermutation(a[..], old(a[..]))
    ensures Sorted(old(a[..])) ==> a[..] == old(a[..])
    ensures usedBuffer <==> a.Length >= MinRunThreshold
  {
    SortCorrect(a[..]);
    if Sorted(a[..]) {
      SortOfSorted(a[..]);
    }
    usedBuffer := false;
    var n := a.Length;
    if n <= 1 {
      SortShort(a[..]);
      return;
    }
    var minRun := MinRun(n);
    MinRunBounds(n);

    ReverseStrictlyDecreasing(a, 0, n, ReversalTolerance);
    assert a[..] == a[0..n] && old(a[..]) == old(a[0..n]);
    NormalizeRunsStable(old(a[..]), ReversalTolerance);
    SameSortIffStable(a[..], old(a[..]));

    ghost var normalized := a[..];
    SortChunks(a, minRun);
    ChunkPhase(normalized, a[..], minRun);

    if minRun == n {
      // The whole array was one chunk.
      SortOfSorted(a[..]);
      return;
    }

    var buffer := new Item[n];
    usedBuffer := true;
    var w := minRun;
    while w <= n
      invariant w > 0
      invariant SortedBlocks(a[..], w)
      invariant Sort(a[..]) == Sort(old(a[..]))
      decreases n - w
    {
      MergePass(a, buffer, w);
      w := 2 * w;
    }
    SortOfSorted(a[..]);
  }
}
