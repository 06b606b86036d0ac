/**
 * `eng::merge` (src/eng/algorithm/stable_sort.h:74-90): the stable two-way
 * merge of two sorted runs into an output range, and the reference `Merge`
 * that specifies it.
 */
module Merging {
  import opened SortSpec

  /** The two-way merge: repeatedly take the smaller front, the first
      sequence's on equal keys; append the rest once one side runs out. */
  function Merge(x: seq<Item>, y: seq<Item>): (r: seq<Item>)
    ensures |r| == |x| + |y|
    decreases |x| + |y|
  {
    if x == [] then y
    else if y == [] then x
    else if x[0].key <= y[0].key then [x[0]] + Merge(x[1..], y)
    else [y[0]] + Merge(x, y[1..])
  }

  /** Merging sorted inputs yields a sorted output. */
  lemma {:induction false} MergeSorted(x: seq<Item>, y: seq<Item>)
    requires Sorted(x) && Sorted(y)
    ensures Sorted(Merge(x, y))
    ensures Merge(x, y) != [] ==> Merge(x, y)[0] == (if y == [] || (x != [] && x[0].key <= y[0].key) then x[0] else y[0])
    decreases |x| + |y|
  {
    if x != [] && y != [] {
      if x[0].key <= y[0].key {
        MergeSorted(x[1..], y);
      } else {
        MergeSorted(x, y[1..]);
      }
    }
  }

  /** Taking the front of the first run keeps it first among its key. */
  lemma TakeFirstWithKey(e: Item, m: seq<Item>, u: seq<Item>, v: seq<Item>, k: int)
    requires WithKey(m, k) == WithKey(u, k) + WithKey(v, k)
    ensures WithKey([e] + m, k) == WithKey([e] + u, k) + WithKey(v, k)
  {
    WithKeyAppend([e], m, k);
    WithKeyAppend([e], u, k);
    var a, b, c := WithKey([e], k), WithKey(u, k), WithKey(v, k);
    assert a + (b + c) == (a + b) + c;
  }

  /** Taking the front of the second run is stable when no element of the
      first run has its key. */
  lemma TakeSecondWithKey(e: Item, m: seq<Item>, u: seq<Item>, v: seq<Item>, k: int)
    requires WithKey(m, k) == WithKey(u, k) + WithKey(v, k)
    requires e.key == k ==> WithKey(u, k) == []
    ensures WithKey([e] + m, k) == WithKey(u, k) + WithKey([e] + v, k)
  {
    WithKeyAppend([e], m, k);
    WithKeyAppend([e], v, k);
  }

  /** A sorted run whose first key exceeds `k` holds no element of key `k`. */
  lemma SortedAbove(x: seq<Item>, k: int)
    requires Sorted(x) && x != [] && k < x[0].key
    ensures WithKey(x, k) == []
  {
    WithKeyAbsent(x, k);
  }

  /** Merging keeps, for every key, the first sequence's elements of that key
      before the second's, each in its own order: the merge is stable. */
  lemma {:induction false} MergeWithKey(x: seq<Item>, y: seq<Item>, k: int)
    requires Sorted(x)
    ensures WithKey(Merge(x, y), k) == WithKey(x, k) + WithKey(y, k)
    decreases |x| + |y|
  {
    if x == [] {
      assert WithKey(x, k) == [];
    } else if y == [] {
      assert WithKey(y, k) == [];
    } else if x[0].key <= y[0].key {
      MergeWithKey(x[1..], y, k);
      assert Merge(x, y) == [x[0]] + Merge(x[1..], y);
      assert x == [x[0]] + x[1..];
      TakeFirstWithKey(x[0], Merge(x[1..], y), x[1..], y, k);
    } else {
      MergeWithKey(x, y[1..], k);
      assert Merge(x, y) == [y[0]] + Merge(x, y[1..]);
      assert y == [y[0]] + y[1..];
      if k == y[0].key {
        SortedAbove(x, k);
      }
      TakeSecondWithKey(y[0], Merge(x, y[1..]), x, y[1..], k);
    }
  }

  lemma MergeStable(x: seq<Item>, y: seq<Item>)
    requires Sorted(x)
    ensures StablePermutation(Merge(x, y), x + y)
  {
    forall k
      ensures WithKey(Merge(x, y), k) == WithKey(x + y, k)
    {
      MergeWithKey(x, y, k);
      WithKeyAppend(x, y, k);
    }
  }

  /** Merging two sorted sequences is the stable sort of their concatenation. */
  lemma MergeIsSort(x: seq<Item>, y: seq<Item>)
    requires Sorted(x) && Sorted(y)
    ensures Merge(x, y) == Sort(x + y)
  {
    MergeSorted(x, y);
    MergeStable(x, y);
    SortIsUnique(x + y, Merge(x, y));
  }

  /** Equal keys: the two 3s of the first run come out before the 3 of the second. */
  lemma MergeTieBreakExample()
    ensures Merge([Item(1, 0), Item(3, 1), Item(3, 2)], [Item(2, 3), Item(3, 4), Item(4, 5)])
         == [Item(1, 0), Item(2, 3), Item(3, 1), Item(3, 2), Item(3, 4), Item(4, 5)]
  {
  }

  /** `std::move` of a range: copies `src[from..to]` to `dst` at `out`. */
  method MoveRange<T>(src: array<T>, from: int, to: int, dst: array<T>, out: int)
    requires src != dst
    requires 0 <= from <= to <= src.Length
    requires 0 <= out && out + (to - from) <= dst.Length
    modifies dst
    ensures dst[..] == old(dst[..out]) + src[from..to] + old(dst[out + (to - from)..])
  {
    var k := 0;
    while k < to - from
      invariant 0 <= k <= to - from
      invariant forall p :: 0 <= p < dst.Length ==> dst[p] == if out <= p < out + k then src[from + (p - out)] else old(dst[p])
    {
      dst[out + k] := src[from + k];
      k := k + 1;
    }
    assert dst[..] == old(dst[..out]) + src[from..to] + old(dst[out + (to - from)..]);
  }

  /** What is still to be merged once the runs have shrunk to `x[first..e1]`
      and `x[second..e2]`, stated step by step as the merge loop takes it. */
  ghost function Remaining(x: seq<Item>, first: int, e1: int, second: int, e2: int): (r: seq<Item>)
    requires 0 <= first <= e1 <= |x| && 0 <= second <= e2 <= |x|
    ensures |r| == (e1 - first) + (e2 - second)
    decreases (e1 - first) + (e2 - second)
  {
    if first == e1 then x[second..e2]
    else if second == e2 then x[first..e1]
    else if x[first].key <= x[second].key then [x[first]] + Remaining(x, first + 1, e1, second, e2)
    else [x[second]] + Remaining(x, first, e1, second + 1, e2)
  }

  /** The step-by-step merge of two ranges is the merge of the two slices. */
  lemma {:induction false} RemainingIsMerge(x: seq<Item>, first: int, e1: int, second: int, e2: int)
    requires 0 <= first <= e1 <= |x| && 0 <= second <= e2 <= |x|
    ensures Remaining(x, first, e1, second, e2) == Merge(x[first..e1], x[second..e2])
    decreases (e1 - first) + (e2 - second)
  {
    if first != e1 && second != e2 {
      assert x[first..e1][1..] == x[first + 1..e1];
      assert x[second..e2][1..] == x[second + 1..e2];
      if x[first].key <= x[second].key {
        RemainingIsMerge(x, first + 1, e1, second, e2);
      } else {
        RemainingIsMerge(x, first, e1, second + 1, e2);
      }
    }
  }

  /** One step of the merge taking the front of the first run, which wins ties. */
  lemma TakeFirst(x: seq<Item>, first: int, e1: int, second: int, e2: int, done: seq<Item>, whole: seq<Item>)
    requires 0 <= first < e1 <= |x| && 0 <= second < e2 <= |x| && x[first].key <= x[second].key
    requires done + Remaining(x, first, e1, second, e2) == whole
    ensures (done + [x[first]]) + Remaining(x, first + 1, e1, second, e2) == whole
  {
    assert done + ([x[first]] + Remaining(x, first + 1, e1, second, e2)) == (done + [x[first]]) + Remaining(x, first + 1, e1, second, e2);
  }

  /** One step of the merge taking the front of the second run, which is strictly smaller. */
  lemma TakeSecond(x: seq<Item>, first: int, e1: int, second: int, e2: int, done: seq<Item>, whole: seq<Item>)
    requires 0 <= first < e1 <= |x| && 0 <= second < e2 <= |x| && x[second].key < x[first].key
    requires done + Remaining(x, first, e1, second, e2) == whole
    ensures (done + [x[second]]) + Remaining(x, first, e1, second + 1, e2) == whole
  {
    assert done + ([x[second]] + Remaining(x, first, e1, second + 1, e2)) == (done + [x[second]]) + Remaining(x, first, e1, second + 1, e2);
  }

  /** Once one run is exhausted, what remains to merge is the rest of the other. */
  lemma RemainingRest(x: seq<Item>, first: int, e1: int, second: int, e2: int)
    requires 0 <= first <= e1 <= |x| && 0 <= second <= e2 <= |x|
    ensures first == e1 ==> Remaining(x, first, e1, second, e2) == x[second..e2]
    ensures second == e2 ==> Remaining(x, first, e1, second, e2) == x[first..e1]
  {
  }

  /** The output once the merged prefix `done` has been written from `out`
      and the rest of the unexhausted run moved after it. */
  lemma MergeOutput(orig: seq<Item>, out: int, done: seq<Item>, rest: seq<Item>, before: seq<Item>, after: seq<Item>)
    requires 0 <= out && out + |done| + |rest| <= |orig| == |before|
    requires before[..out] == orig[..out] && before[out..out + |done|] == done && before[out + |done|..] == orig[out + |done|..]
    requires after == before[..out + |done|] + rest + before[out + |done| + |rest|..]
    ensures after == orig[..out] + (done + rest) + orig[out + |done| + |rest|..]
  {
    var o := out + |done|;
    assert before[..o] == before[..out] + before[out..o];
    assert before[o + |rest|..] == before[o..][|rest|..];
    assert orig[o + |rest|..] == orig[o..][|rest|..];
  }

  /** The last step of the merge: moves the rest `src[from..to]` of the
      unexhausted run after the merged prefix `done` written from `out`. */
  method MoveRest(src: array<Item>, from: int, to: int, dst: array<Item>, o: int,
                  ghost orig: seq<Item>, ghost out: int, ghost done: seq<Item>)
    requires src != dst && 0 <= from <= to <= src.Length
    requires 0 <= out && o == out + |done| && o + (to - from) <= dst.Length == |orig|
    requires dst[..out] == orig[..out] && dst[out..o] == done && dst[o..] == orig[o..]
    modifies dst
    ensures dst[..] == orig[..out] + (done + src[from..to]) + orig[o + (to - from)..]
  {
    ghost var before := dst[..];
    MoveRange(src, from, to, dst, o);
    MergeOutput(orig, out, done, src[from..to], before, dst[..]);
  }

  /** Writing `next` at `o`, right after the merged prefix `done` written from `out`. */
  lemma Written(orig: seq<Item>, before: seq<Item>, after: seq<Item>, out: int, o: int, done: seq<Item>, next: Item)
    requires 0 <= out <= o < |orig| == |before|
    requires before[..out] == orig[..out] && before[out..o] == done && before[o..] == orig[o..]
    requires after == before[o := next]
    ensures after[..out] == orig[..out] && after[out..o + 1] == done + [next] && after[o + 1..] == orig[o + 1..]
  {
    assert after[out..o + 1] == after[out..o] + [after[o]];
    assert after[o + 1..] == before[o..][1..];
  }

  /** The loop of the merge: while both runs last, moves the smaller front
      (the first run's on equal keys) to the output, and stops, without
      moving anything else, as soon as either run is exhausted. */
  method MergeFronts(src: array<Item>, f1: int, e1: int, f2: int, e2: int, dst: array<Item>, out: int)
      returns (first: int, second: int, o: int, ghost done: seq<Item>)
    requires src != dst
    requires 0 <= f1 <= e1 <= src.Length && 0 <= f2 <= e2 <= src.Length
    requires 0 <= out && out + (e1 - f1) + (e2 - f2) <= dst.Length
    modifies dst
    ensures f1 <= first <= e1 && f2 <= second <= e2 && (first == e1 || second == e2)
    ensures o == out + (first - f1) + (second - f2) == out + |done|
    ensures dst[..out] == old(dst[..out]) && dst[out..o] == done && dst[o..] == old(dst[o..])
    ensures done + Remaining(src[..], first, e1, second, e2) == Remaining(src[..], f1, e1, f2, e2)
  {
    ghost var x := src[..];
    ghost var orig := dst[..];
    ghost var whole := Remaining(x, f1, e1, f2, e2);
    first, second, o, done := f1, f2, out, [];
    assert done + whole == whole;
    while first != e1
      invariant f1 <= first <= e1 && f2 <= second <= e2
      invariant o == out + (first - f1) + (second - f2) == out + |done|
      invariant dst[..out] == orig[..out] && dst[out..o] == done && dst[o..] == orig[o..]
      invariant done + Remaining(x, first, e1, second, e2) == whole
      decreases (e1 - first) + (e2 - second)
    {
      if second == e2 {
        return;
      }
      var next: Item;
      if src[first].key <= src[second].key {
        TakeFirst(x, first, e1, second, e2, done, whole);
        next := src[first];
        first := first + 1;
      } else {
        TakeSecond(x, first, e1, second, e2, done, whole);
        next := src[second];
        second := second + 1;
      }
      ghost var before := dst[..];
      dst[o] := next;
      Written(orig, before, dst[..], out, o, done, next);
      done := done + [next];
      o := o + 1;
    }
  }

  /** Merges `src[f1..e1]` and `src[f2..e2]` into `dst` from position `out`:
      the fronts are merged until one run is exhausted; if it is the second,
      the rest of the first is moved (the source does this inside its loop and
      returns), otherwise the rest of the second is moved. */
  method MergeInto(src: array<Item>, f1: int, e1: int, f2: int, e2: int, dst: array<Item>, out: int)
    requires src != dst
    requires 0 <= f1 <= e1 <= src.Length && 0 <= f2 <= e2 <= src.Length
    requires 0 <= out && out + (e1 - f1) + (e2 - f2) <= dst.Length
    modifies dst
    ensures dst[..] == old(dst[..out]) + old(Merge(src[f1..e1], src[f2..e2])) + old(dst[out + (e1 - f1) + (e2 - f2)..])
  {
    ghost var orig := dst[..];
    RemainingIsMerge(src[..], f1, e1, f2, e2);
    var first, second, o, done := MergeFronts(src, f1, e1, f2, e2, dst, out);
    RemainingRest(src[..], first, e1, second, e2);
    if first != e1 {
      MoveRest(src, first, e1, dst, o, orig, out, done);
    } else {
      MoveRest(src, second, e2, dst, o, orig, out, done);
    }
  }
}
