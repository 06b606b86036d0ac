/**
 * Vocabulary for stating what the sorting routines promise: elements ordered
 * by a key, sortedness, stability, and a reference stable sort that every
 * correct result must equal.
 */
module SortSpec {

  /** An element to sort. Elements are compared on `key` only; `tag` tells
      apart elements whose keys are equal, so that stability can be stated. */
  datatype Item = Item(key: int, tag: int)

  /** Non-decreasing by key. */
  predicate Sorted(s: seq<Item>) {
    forall i, j :: 0 <= i < j < |s| ==> s[i].key <= s[j].key
  }

  /** The elements of `s` whose key is `k`, in the order they have in `s`. */
  function WithKey(s: seq<Item>, k: int): (r: seq<Item>)
    ensures |r| <= |s|
    ensures forall i :: 0 <= i < |r| ==> r[i].key == k
  {
    if s == [] then [] else (if s[0].key == k then [s[0]] else []) + WithKey(s[1..], k)
  }

  /** `r` is a stable rearrangement of `s`: for every key, the elements with
      that key occur in `r` exactly as, and in the same order as, in `s`. */
  ghost predicate StablePermutation(r: seq<Item>, s: seq<Item>) {
    forall k :: WithKey(r, k) == WithKey(s, k)
  }

  lemma {:induction false} WithKeyAppend(x: seq<Item>, y: seq<Item>, k: int)
    ensures WithKey(x + y, k) == WithKey(x, k) + WithKey(y, k)
  {
    if x == [] {
      assert x + y == y;
    } else {
      assert (x + y)[0] == x[0];
      assert (x + y)[1..] == x[1..] + y;
      WithKeyAppend(x[1..], y, k);
    }
  }

  lemma {:induction false} WithKeyAbsent(s: seq<Item>, k: int)
    requires forall i :: 0 <= i < |s| ==> s[i].key != k
    ensures WithKey(s, k) == []
  {
    if s != [] {
      WithKeyAbsent(s[1..], k);
    }
  }

  /** The number of copies of `x` in `s` is the number in the elements of `s` with key `x.key`. */
  lemma {:induction false} CountByKey(s: seq<Item>, x: Item)
    ensures multiset(s)[x] == multiset(WithKey(s, x.key))[x]
  {
    if s != [] {
      assert s == [s[0]] + s[1..];
      CountByKey(s[1..], x);
    }
  }

  /** A stable rearrangement is in particular a permutation. */
  lemma StablePermutationIsPermutation(r: seq<Item>, s: seq<Item>)
    requires StablePermutation(r, s)
    ensures multiset(r) == multiset(s)
    ensures |r| == |s|
  {
    forall x
      ensures multiset(r)[x] == multiset(s)[x]
    {
      CountByKey(r, x);
      CountByKey(s, x);
    }
    assert multiset(r) == multiset(s);
    assert |multiset(r)| == |multiset(s)|;
  }

  /** Replacing a segment by a stable rearrangement of it rearranges the whole stably. */
  lemma ReplaceSegment(s: seq<Item>, lo: int, hi: int, m: seq<Item>)
    requires 0 <= lo <= hi <= |s|
    requires StablePermutation(m, s[lo..hi])
    ensures StablePermutation(s[..lo] + m + s[hi..], s)
  {
    assert s == s[..lo] + s[lo..hi] + s[hi..];
    forall k
      ensures WithKey(s[..lo] + m + s[hi..], k) == WithKey(s, k)
    {
      WithKeyAppend(s[..lo] + m, s[hi..], k);
      WithKeyAppend(s[..lo], m, k);
      WithKeyAppend(s[..lo] + s[lo..hi], s[hi..], k);
      WithKeyAppend(s[..lo], s[lo..hi], k);
    }
  }

  /** Two sorted, stably permuted sequences start with the same element. */
  lemma SortedStableHead(r1: seq<Item>, r2: seq<Item>)
    requires Sorted(r1) && Sorted(r2) && StablePermutation(r1, r2) && r1 != []
    ensures r2 != [] && r1[0] == r2[0]
  {
    StablePermutationIsPermutation(r1, r2);
    var k1, k2 := r1[0].key, r2[0].key;
    assert r1[0] in multiset(r2);
    var i :| 0 <= i < |r2| && r2[i] == r1[0];
    assert k2 <= k1;
    assert r2[0] in multiset(r1);
    var j :| 0 <= j < |r1| && r1[j] == r2[0];
    assert k1 <= k2;
    assert WithKey(r1, k1) == [r1[0]] + WithKey(r1[1..], k1);
    assert WithKey(r2, k1) == [r2[0]] + WithKey(r2[1..], k1);
    assert r1[0] == WithKey(r1, k1)[0] == WithKey(r2, k1)[0] == r2[0];
  }

  /** Dropping a common first element keeps a stable permutation. */
  lemma StableTails(r1: seq<Item>, r2: seq<Item>)
    requires r1 != [] && r2 != [] && r1[0] == r2[0] && StablePermutation(r1, r2)
    ensures StablePermutation(r1[1..], r2[1..])
  {
    forall k
      ensures WithKey(r1[1..], k) == WithKey(r2[1..], k)
    {
      var h := WithKey([r1[0]], k);
      assert WithKey(r1, k) == h + WithKey(r1[1..], k);
      assert WithKey(r2, k) == h + WithKey(r2[1..], k);
      assert WithKey(r1[1..], k) == WithKey(r1, k)[|h|..];
    }
  }

  /** Sortedness and stability determine the result: two sorted stable
      rearrangements of the same elements are equal. */
  lemma {:induction false} SortedStableUnique(r1: seq<Item>, r2: seq<Item>)
    requires Sorted(r1) && Sorted(r2) && StablePermutation(r1, r2)
    ensures r1 == r2
    decreases |r1|
  {
    if r1 != [] {
      SortedStableHead(r1, r2);
      StableTails(r1, r2);
      SortedStableUnique(r1[1..], r2[1..]);
      assert r1 == [r1[0]] + r1[1..];
      assert r2 == [r2[0]] + r2[1..];
    } else {
      StablePermutationIsPermutation(r1, r2);
      assert |r2| == |multiset(r2)|;
    }
  }


  /** Inserts `x` after every element whose key is at most `x.key`. */
  function Insert(s: seq<Item>, x: Item): (r: seq<Item>)
    ensures |r| == |s| + 1
    ensures r[0] == (if s == [] || x.key < s[0].key then x else s[0])
  {
    if s == [] || x.key < s[0].key then [x] + s else [s[0]] + Insert(s[1..], x)
  }

  /** The first `n` elements of `s` sorted by inserting them one by one, from left to right. */
  function SortUpTo(s: seq<Item>, n: int): (r: seq<Item>)
    requires 0 <= n <= |s|
    ensures |r| == n
  {
    if n == 0 then [] else Insert(SortUpTo(s, n - 1), s[n - 1])
  }

  /** Reference stable sort: insertion of every element, from left to right. */
  function Sort(s: seq<Item>): (r: seq<Item>)
    ensures |r| == |s|
  {
    SortUpTo(s, |s|)
  }

  /** Sorting the first `n` elements looks at nothing else. */
  lemma {:induction false} SortUpToPrefix(s: seq<Item>, t: seq<Item>, n: int)
    requires 0 <= n <= |s| && n <= |t| && s[..n] == t[..n]
    ensures SortUpTo(s, n) == SortUpTo(t, n)
  {
    if n > 0 {
      assert s[n - 1] == s[..n][n - 1] == t[..n][n - 1] == t[n - 1];
      assert s[..n - 1] == s[..n][..n - 1] == t[..n][..n - 1] == t[..n - 1];
      SortUpToPrefix(s, t, n - 1);
    }
  }

  lemma SortShort(s: seq<Item>)
    requires |s| <= 1
    ensures Sort(s) == s
  {
  }

  /** Inserting into a sorted sequence keeps it sorted. */
  lemma {:induction false} InsertSorted(s: seq<Item>, x: Item)
    requires Sorted(s)
    ensures Sorted(Insert(s, x))
  {
    if s != [] && s[0].key <= x.key {
      InsertSorted(s[1..], x);
      var r := Insert(s, x);
      assert r == [s[0]] + Insert(s[1..], x);
      forall i, j | 0 <= i < j < |r|
        ensures r[i].key <= r[j].key
      {
        if i == 0 {
          InsertMember(s[1..], x, j - 1);
        }
      }
    }
  }

  /** Every element of `Insert(s, x)` is `x` or an element of `s`. */
  lemma {:induction false} InsertMember(s: seq<Item>, x: Item, j: int)
    requires 0 <= j < |s| + 1
    ensures Insert(s, x)[j] == x || Insert(s, x)[j] in s
  {
    if s != [] && s[0].key <= x.key && j > 0 {
      InsertMember(s[1..], x, j - 1);
    }
  }

  /** Insertion places `x` after every element of `s` with the same key. */
  lemma {:induction false} InsertWithKey(s: seq<Item>, x: Item, k: int)
    requires Sorted(s)
    ensures WithKey(Insert(s, x), k) == WithKey(s, k) + WithKey([x], k)
  {
    if s == [] || x.key < s[0].key {
      assert Insert(s, x) == [x] + s;
      WithKeyAppend([x], s, k);
      if k == x.key {
        WithKeyAbsent(s, k);
      }
    } else {
      var head, tail := s[0], s[1..];
      assert Insert(s, x) == [head] + Insert(tail, x);
      assert s == [head] + tail;
      InsertWithKey(tail, x, k);
      WithKeyAppend([head], Insert(tail, x), k);
      WithKeyAppend([head], tail, k);
      var h, u, v := WithKey([head], k), WithKey(tail, k), WithKey([x], k);
      assert (h + u) + v == h + (u + v);
    }
  }

  /** Inserting into a sorted sequence keeps it sorted and places `x` after
      every element of equal key. */
  lemma InsertSortedStable(s: seq<Item>, x: Item)
    requires Sorted(s)
    ensures Sorted(Insert(s, x))
    ensures forall k :: WithKey(Insert(s, x), k) == WithKey(s, k) + WithKey([x], k)
  {
    InsertSorted(s, x);
    forall k
      ensures WithKey(Insert(s, x), k) == WithKey(s, k) + WithKey([x], k)
    {
      InsertWithKey(s, x, k);
    }
  }

  lemma {:induction false} SortUpToCorrect(s: seq<Item>, n: int)
    requires 0 <= n <= |s|
    ensures Sorted(SortUpTo(s, n))
    ensures StablePermutation(SortUpTo(s, n), s[..n])
  {
    if n > 0 {
      var init, last := s[..n - 1], s[n - 1];
      SortUpToCorrect(s, n - 1);
      InsertSortedStable(SortUpTo(s, n - 1), last);
      assert s[..n] == init + [last];
      forall k
        ensures WithKey(SortUpTo(s, n), k) == WithKey(s[..n], k)
      {
        WithKeyAppend(init, [last], k);
      }
    }
  }

  /** The reference sort is sorted and a stable rearrangement of its input. */
  lemma SortCorrect(s: seq<Item>)
    ensures Sorted(Sort(s))
    ensures StablePermutation(Sort(s), s)
  {
    SortUpToCorrect(s, |s|);
    assert s[..|s|] == s;
  }

  lemma SortUpToSorted(s: seq<Item>, n: int)
    requires 0 <= n <= |s|
    ensures Sorted(SortUpTo(s, n))
  {
    SortUpToCorrect(s, n);
  }

  /** Every sorted stable rearrangement of `s` is the reference sort of `s`. */
  lemma SortIsUnique(s: seq<Item>, r: seq<Item>)
    requires Sorted(r) && StablePermutation(r, s)
    ensures r == Sort(s)
  {
    SortCorrect(s);
    SortedStableUnique(r, Sort(s));
  }

  /** Sorting a sorted sequence returns it unchanged. */
  lemma SortOfSorted(s: seq<Item>)
    requires Sorted(s)
    ensures Sort(s) == s
  {
    SortIsUnique(s, s);
  }

  /** Sorting is idempotent. */
  lemma SortIdempotent(s: seq<Item>)
    ensures Sort(Sort(s)) == Sort(s)
  {
    SortCorrect(s);
    SortOfSorted(Sort(s));
  }

  /** Two sequences have the same reference sort exactly when one is a
      stable rearrangement of the other. */
  lemma SameSortIffStable(r: seq<Item>, s: seq<Item>)
    ensures Sort(r) == Sort(s) <==> StablePermutation(r, s)
  {
    SortCorrect(r);
    SortCorrect(s);
    if Sort(r) == Sort(s) {
      forall k
        ensures WithKey(r, k) == WithKey(s, k)
      {
        assert WithKey(r, k) == WithKey(Sort(r), k);
        assert WithKey(s, k) == WithKey(Sort(s), k);
      }
    }
    if StablePermutation(r, s) {
      forall k
        ensures WithKey(Sort(r), k) == WithKey(s, k)
      {
        assert WithKey(Sort(r), k) == WithKey(r, k);
      }
      SortIsUnique(s, Sort(r));
    }
  }

  /** Replacing a segment by a rearrangement of it with the same reference
      sort leaves the reference sort of the whole unchanged. */
  lemma SortReplace(s: seq<Item>, lo: int, hi: int, m: seq<Item>)
    requires 0 <= lo <= hi <= |s| && Sort(m) == Sort(s[lo..hi])
    ensures Sort(s[..lo] + m + s[hi..]) == Sort(s)
  {
    SameSortIffStable(m, s[lo..hi]);
    ReplaceSegment(s, lo, hi, m);
    SameSortIffStable(s[..lo] + m + s[hi..], s);
  }

  /** Sorting both halves first does not change the sort of the whole. */
  lemma SortHalves(x: seq<Item>, y: seq<Item>)
    ensures Sort(Sort(x) + Sort(y)) == Sort(x + y)
  {
    var s := x + y;
    SortIdempotent(x);
    assert s[..0] + Sort(x) + s[|x|..] == Sort(x) + y;
    assert s[0..|x|] == x;
    SortReplace(s, 0, |x|, Sort(x));
    var t := Sort(x) + y;
    SortIdempotent(y);
    assert t[..|x|] + Sort(y) + t[|s|..] == Sort(x) + Sort(y);
    assert t[|x|..|s|] == y;
    SortReplace(t, |x|, |s|, Sort(y));
  }

  /** Stability in its classic form: of two elements with equal keys, the one
      that comes first in the input comes first in the output. */
  lemma StableOrder(r: seq<Item>, s: seq<Item>, i: int, j: int)
    requires StablePermutation(r, s)
    requires 0 <= i < j < |s| && s[i].key == s[j].key
    ensures exists p, q :: 0 <= p < q < |r| && r[p] == s[i] && r[q] == s[j]
  {
    var k := s[i].key;
    var w := WithKey(s, k);
    var a := |WithKey(s[..i], k)|;
    var b := |WithKey(s[..j], k)|;
    assert s == s[..i] + [s[i]] + s[i + 1..];
    WithKeyAppend(s[..i] + [s[i]], s[i + 1..], k);
    WithKeyAppend(s[..i], [s[i]], k);
    assert s == s[..j] + [s[j]] + s[j + 1..];
    WithKeyAppend(s[..j] + [s[j]], s[j + 1..], k);
    WithKeyAppend(s[..j], [s[j]], k);
    assert s[..j] == s[..i] + [s[i]] + s[i + 1..j];
    WithKeyAppend(s[..i] + [s[i]], s[i + 1..j], k);
    WithKeyAppend(s[..i], [s[i]], k);
    assert w[a] == s[i] && w[b] == s[j] && a < b;
    var p := SubsequencePosition(r, k, a);
    var q := SubsequencePosition(r, k, b);
    if q <= p {
      WithKeyPrefixMonotone(r, q, p, k);
    }
  }

  /** The `n`-th element with key `k` sits at a position `p` of `s` preceded by exactly `n` such elements. */
  lemma {:induction false} SubsequencePosition(s: seq<Item>, k: int, n: int) returns (p: int)
    requires 0 <= n < |WithKey(s, k)|
    ensures 0 <= p < |s| && s[p] == WithKey(s, k)[n] && |WithKey(s[..p], k)| == n
  {
    assert s != [];
    if s[0].key == k && n == 0 {
      assert s[..0] == [];
      p := 0;
    } else {
      var h := WithKey([s[0]], k);
      var m := n - |h|;
      assert s == [s[0]] + s[1..];
      WithKeyAppend([s[0]], s[1..], k);
      assert WithKey(s, k)[n] == WithKey(s[1..], k)[m];
      var q := SubsequencePosition(s[1..], k, m);
      assert s[..q + 1] == [s[0]] + s[1..][..q];
      WithKeyAppend([s[0]], s[1..][..q], k);
      p := q + 1;
    }
  }

  lemma WithKeyPrefixMonotone(s: seq<Item>, q: int, p: int, k: int)
    requires 0 <= q <= p <= |s|
    ensures |WithKey(s[..q], k)| <= |WithKey(s[..p], k)|
  {
    assert s[..p] == s[..q] + s[q..p];
    WithKeyAppend(s[..q], s[q..p], k);
  }
}
