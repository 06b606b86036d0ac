# eng::stable_sort and eng::vector in Dafny

This project models two parts of the `eng` library in Dafny and proves what
they promise.

**The adaptive stable merge sort** (`src/eng/algorithm/stable_sort.h`) is
built from five routines:
- `reverse` reverses a range in place;
- `reverse_strictly_decreasing` reverses every maximal strictly decreasing run
  longer than a tolerance;
- `insertion_sort` is a stable sort by shifting;
- `merge` is a two-way merge in which the first run wins ties;
- `stable_sort` ties them together: it computes a minimum run, normalises
  descending runs with tolerance 2, insertion-sorts each chunk, and then runs
  a bottom-up merge over doubling windows. The merge uses one scratch buffer,
  skips pairs that are already in order, and merges "ping-pong" when two
  consecutive pairs both need merging.

The routines work in place on an `array<Item>`. An `Item` is compared on its
`key` only. Its `tag` tells equal keys apart, so stability can be stated.

Each routine is proved against a function on sequences:
- `Reversed` for `reverse`;
- `NormalizeRuns` for `reverse_strictly_decreasing`;
- `Merge` for `merge`;
- `Sort`, a reference stable insertion sort, for `insertion_sort` and
  `stable_sort`.

Lemmas then prove what those functions mean. `Sort(s)` is sorted and a
*stable permutation* of `s`: for every key, the elements with that key appear
in the same order. It is the only sequence with both properties. `Merge` of
sorted runs is the `Sort` of their concatenation. `NormalizeRuns` is a stable
permutation and turns a long decreasing run ascending.

**The growable array** `eng::vector` (`src/eng/container/vector.h`) is a class
`Vector.Vector` with the fields `data`, `size` and `capacity`. Its methods
update these fields in place and state the new elements and the new capacity
exactly. They follow the source's growth rule: 4 slots for an empty vector,
otherwise `size * 1.5` truncated, written `size + size / 2`. They also follow
its shrink rule in `pop_back`.

Files:
- `sort_spec.dfy`: `Item`, sortedness, stability, and the reference sort.
- `reversal.dfy`: `reverse` and `reverse_strictly_decreasing`.
- `insertion.dfy`: `insertion_sort`.
- `merging.dfy`: `merge`.
- `stable_sort.dfy`: `stable_sort`.
- `vector.dfy`: the vector.

Constants and bounds the code uses:
- A run is reversed when it is longer than the tolerance (`>`,
  stable_sort.h:31).
- The minimum-run threshold is 10, so for 10 or more elements the minimum run ends up between 5 and 9; below 10 it is the length.
- The window loop runs while the window is at most the length (`<=`,
  stable_sort.h:130). That includes one last pass, with nothing to merge, when
  the window equals the length.

## Model

| member | source | states |
|---|---|---|
| SortSpec.SortCorrect | src/eng/algorithm/stable_sort.h:92-176 | the reference sort is non-decreasing and a stable permutation of its input |
| SortSpec.SortIsUnique | src/eng/algorithm/stable_sort.h:92-176 | any sorted stable permutation of `s` equals `Sort(s)`, so the sort result is determined by the two promises |
| SortSpec.SameSortIffStable | src/eng/algorithm/stable_sort.h:92-176 | two sequences have the same reference sort exactly when one is a stable permutation of the other |
| SortSpec.StablePermutationIsPermutation | src/eng/algorithm/stable_sort.h:92-176 | a stable permutation has the same multiset of elements and the same length |
| SortSpec.StableOrder | src/eng/algorithm/stable_sort.h:92-176 | in a stable permutation, two equal-key elements at input positions i < j appear in that order in the output |
| SortSpec.SortOfSorted | src/eng/algorithm/stable_sort.h:92-176 | sorting an already sorted sequence returns it unchanged |
| SortSpec.SortIdempotent | src/eng/algorithm/stable_sort.h:92-176 | sorting twice is sorting once |
| SortSpec.SortReplace | src/eng/algorithm/stable_sort.h:115-118 | replacing a segment by a sequence with the same sort keeps the sort of the whole (each in-place phase keeps stability) |
| SortSpec.SortHalves | src/eng/algorithm/stable_sort.h:130-171 | sorting two halves first does not change the sort of the concatenation |
| SortSpec.InsertSortedStable | src/eng/algorithm/stable_sort.h:59-70 | inserting into a sorted sequence keeps it sorted and places the new element after every element of equal key |
| Reversal.ReversedAt | src/eng/algorithm/stable_sort.h:8-16 | position k of the reversal holds the element at len-1-k |
| Reversal.ReversedInvolution | src/eng/algorithm/stable_sort.h:8-16 | reversing twice gives back the original |
| Reversal.ReversedAppend | src/eng/algorithm/stable_sort.h:8-16 | the reversal of x + y is the reversal of y followed by the reversal of x |
| Reversal.Reverse | src/eng/algorithm/stable_sort.h:8-16 | the range becomes the reversal of its old contents and nothing outside it changes |
| Reversal.RunEndMaximal | src/eng/algorithm/stable_sort.h:22-28 | the run found from b is strictly decreasing and stops at the end or at a pair that is not strictly decreasing |
| Reversal.RunEndIs | src/eng/algorithm/stable_sort.h:22-28 | a strictly decreasing stretch that cannot be extended is exactly the run the scan finds |
| Reversal.ScanIsNormalizeRuns | src/eng/algorithm/stable_sort.h:21-36 | the scan of the loop, extending or closing a run at each step, cuts the range exactly at the ends of its maximal runs |
| Reversal.ReverseStrictlyDecreasing | src/eng/algorithm/stable_sort.h:18-37 | the range becomes `NormalizeRuns` of its old contents (every maximal strictly decreasing run longer than the tolerance reversed, the rest in place) and nothing outside it changes |
| Reversal.ReverseDecreasingStable | src/eng/algorithm/stable_sort.h:25 | reversing a strictly decreasing run is a stable permutation, because the strict comparison keeps equal keys out of one run |
| Reversal.NormalizeRunsStable | src/eng/algorithm/stable_sort.h:18-37 | the normalisation is a stable permutation of its input |
| Reversal.NormalizeDecreasing | src/eng/algorithm/stable_sort.h:31-34 | a strictly decreasing input longer than the tolerance comes out reversed and ascending |
| Reversal.NormalizeShortDecreasing | src/eng/algorithm/stable_sort.h:31-35 | a strictly decreasing input no longer than the tolerance is left as it is |
| Reversal.ToleranceTwoExamples | src/eng/algorithm/stable_sort.h:113-114 | with tolerance 2, the run 5 4 stays put and 5 4 3 2 1 becomes 1 2 3 4 5 |
| Reversal.NormalizeSorted | src/eng/algorithm/stable_sort.h:18-37 | on non-decreasing input with tolerance at least 1 nothing moves |
| Insertion.InsertInSorted | src/eng/algorithm/stable_sort.h:63-70 | in a sorted prefix, stopping the scan at the first predecessor not greater than the held element inserts it where the reference insertion does |
| Insertion.ShiftInsert | src/eng/algorithm/stable_sort.h:59-70 | the held element lands at `scan`, the elements between move one place right, every element passed over is greater than it and the one before `scan` (if any) is not, and nothing else changes |
| Insertion.InsertNext | src/eng/algorithm/stable_sort.h:51-71 | one iteration grows the sorted prefix by the next element, inserted as the reference sort inserts it; positions outside the prefix and the element are unchanged |
| Insertion.InsertionSort | src/eng/algorithm/stable_sort.h:39-72 | the range becomes the reference stable sort of its old contents (for length 0 or 1 that is itself) and nothing outside it changes |
| Merging.Merge | src/eng/algorithm/stable_sort.h:74-90 | the merge has exactly len1 + len2 elements |
| Merging.MergeSorted | src/eng/algorithm/stable_sort.h:74-90 | merging sorted runs gives a sorted result whose first element is the first run's front on a tie (line 86) |
| Merging.MergeWithKey | src/eng/algorithm/stable_sort.h:86 | for every key, the merge holds the first run's elements of that key before the second run's |
| Merging.MergeStable | src/eng/algorithm/stable_sort.h:74-90 | merging sorted runs is a stable permutation of their concatenation |
| Merging.MergeIsSort | src/eng/algorithm/stable_sort.h:74-90 | merging sorted runs is the reference stable sort of their concatenation |
| Merging.MergeTieBreakExample | src/eng/algorithm/stable_sort.h:86 | merging 1 3 3 with 2 3 4 puts the first run's two 3s before the second run's 3 |
| Merging.RemainingIsMerge | src/eng/algorithm/stable_sort.h:77-89 | what the loop still has to merge from its two cursors is the merge of the two remaining slices |
| Merging.MoveRange | src/eng/algorithm/stable_sort.h:81 | `std::move` of a range writes exactly those elements at the output and nothing else |
| Merging.MergeFronts | src/eng/algorithm/stable_sort.h:77-87 | the loop stops when one run is exhausted, with the moved prefix followed by what remains equal to the whole merge and only the output positions written |
| Merging.MoveRest | src/eng/algorithm/stable_sort.h:79-89 | moving the rest of the other run completes the merge at the output |
| Merging.MergeInto | src/eng/algorithm/stable_sort.h:74-90 | the output range receives exactly `Merge` of the two input slices and every other position keeps its value |
| StableSort.MinRunBounds | src/eng/algorithm/stable_sort.h:105-124 | below 10 the minimum run is the length (insertion sort only); from 10 on it lies in 5..9 |
| StableSort.MinRun | src/eng/algorithm/stable_sort.h:105-111 | the halving loop computes `MinRunOf(n)` |
| StableSort.SortChunks | src/eng/algorithm/stable_sort.h:115-118 | afterwards each chunk `[c*minRun, min((c+1)*minRun, n))` holds the reference stable sort of its own old elements, and nothing moves between chunks |
| StableSort.ChunksSortedBlocks | src/eng/algorithm/stable_sort.h:115-118 | after the chunk loop every block of `minRun` elements (the last possibly shorter) is sorted |
| StableSort.ChunksKeepSort | src/eng/algorithm/stable_sort.h:115-118 | sorting each chunk on its own keeps the reference sort of the whole, so the result is still a stable permutation of the input |
| StableSort.ChunkPhase | src/eng/algorithm/stable_sort.h:115-118 | the array the chunk loop leaves has sorted blocks of `minRun` and the same reference sort as before the loop |
| StableSort.ChunkDone | src/eng/algorithm/stable_sort.h:115-118 | sorting the next chunk extends the prefix of finished chunks to that chunk's end and leaves the rest as it was |
| StableSort.BlocksAdvance | src/eng/algorithm/stable_sort.h:133-156 | one more sorted block extends the sorted-blocks invariant of the pass by one block |
| StableSort.PassRuns | src/eng/algorithm/stable_sort.h:133-163 | under the pass invariant, the two runs of the pair, and of the next pair when it exists, are sorted |
| StableSort.PairInOrder | src/eng/algorithm/stable_sort.h:138-142 | a pair whose boundary is in order is already its own reference sort, so skipping it moves nothing |
| StableSort.PairMerged | src/eng/algorithm/stable_sort.h:145 | merging a pair of sorted runs yields the reference sort of the pair |
| StableSort.SortsMerged | src/eng/algorithm/stable_sort.h:166 | merging the sorts of two sequences yields the sort of both together |
| StableSort.MergeRuns | src/eng/algorithm/stable_sort.h:145 | merging a pair into the buffer from an offset leaves the pair's reference sort there, the array and the buffer before the offset unchanged |
| StableSort.MergeBack | src/eng/algorithm/stable_sort.h:166 | the two buffer halves are merged straight back into the array from `i`, nothing else in the array changes |
| StableSort.PingPongAt | src/eng/algorithm/stable_sort.h:159-166 | with the first pair merged in the buffer, the four runs from `i` end up as their reference sort, nothing else changes |
| StableSort.MoveBack | src/eng/algorithm/stable_sort.h:155 | the merged pair is copied from the buffer back to the array at `i` |
| StableSort.MoveBackOrPingPong | src/eng/algorithm/stable_sort.h:147-169 | ping-pong is taken exactly when the next pair exists and is out of order (then the loop index advances by 4w, otherwise 2w), and the covered range becomes its reference sort |
| StableSort.MergeAt | src/eng/algorithm/stable_sort.h:133-170 | one iteration: the index advances by 4w exactly in the ping-pong case, otherwise 2w; the covered range becomes its reference sort; an in-order pair moves nothing |
| StableSort.PassPairDone | src/eng/algorithm/stable_sort.h:133-156 | after a merged pair the pass invariant holds 2w further on |
| StableSort.PassPingPongDone | src/eng/algorithm/stable_sort.h:159-169 | after a ping-pong merge the pass invariant holds 4w further on (the second pair is skipped) |
| StableSort.PassStep | src/eng/algorithm/stable_sort.h:133-170 | each step keeps the pass invariant and the reference sort of the array |
| StableSort.SamePingPong | src/eng/algorithm/stable_sort.h:139-160 | the skip and ping-pong tests at pair index `i` read only positions from `i` on, so they decide the same on the array as it is and as the pass found it |
| StableSort.PassAdvance | src/eng/algorithm/stable_sort.h:133-170 | replacing the range of one step by its reference sort extends the finished prefix of `PassResult` to the step's end and leaves the rest as the pass found it |
| StableSort.PassStateStep | src/eng/algorithm/stable_sort.h:133-170 | one step, skip, pair merge or ping-pong, keeps the finished prefix, the block invariant and the reference sort |
| StableSort.PassEnd | src/eng/algorithm/stable_sort.h:133-135 | when no pair is left, the array is `PassResult` of the array before the pass, has sorted blocks of `2w` and the same reference sort |
| StableSort.PassPingPongExample | src/eng/algorithm/stable_sort.h:145-169 | with window 1, the pass over 2 1 4 3 merges both pairs ping-pong and leaves 1 2 3 4 |
| StableSort.MergePass | src/eng/algorithm/stable_sort.h:133-170 | the array becomes `PassResult` of its old contents: each range the pass merges (a pair, or two pairs ping-pong) holds its own reference sort, a lone last run stays where it is and nothing moves between ranges; the array then has sorted blocks of `2w` and the same reference sort |
| StableSort.StableSort | src/eng/algorithm/stable_sort.h:92-176 | the array becomes the reference stable sort of its input: sorted and a stable permutation, unchanged when already sorted; the buffer is used exactly when the length is at least 10 |
| Vector.GrowthTruncated | src/eng/container/vector.h:150 | `size * 1.5` converted back to a size is `size + size / 2` |
| Vector.ShrinkTestExact | src/eng/container/vector.h:162 | the test `size * 1.5 * 1.5 <= capacity` holds exactly when `9 * size <= 4 * capacity` |
| Vector.GrowthMakesRoom | src/eng/container/vector.h:148-151 | the growth capacity exceeds the size for every size except 1 |
| Vector.CorrectedGrowthMakesRoom | src/eng/container/vector.h:148-151 | the corrected growth always exceeds the size and agrees with the source's growth for every size other than 1 |
| Vector.ShrinkKeepsRoom | src/eng/container/vector.h:162-165 | when `pop_back` shrinks, the new capacity is below the old one and still holds every element |
| Vector.Vector.constructor | src/eng/container/vector.h:29-34 | a new vector is empty with capacity 0 |
| Vector.Vector.Filled | src/eng/container/vector.h:82-89 | holds `count` copies of `value` in a buffer of exactly `count` slots |
| Vector.Vector.Reallocate | src/eng/container/vector.h:405-436 | a fresh buffer of `newCapacity` slots holds the first `min(newCapacity, size)` elements in order; size and capacity are set to match |
| Vector.Vector.PushBack | src/eng/container/vector.h:141-155 | the elements become the old ones followed by `x`; the capacity is unchanged if there was room, otherwise the growth capacity (4 when empty, else 1.5 times truncated) |
| Vector.Vector.PopBack | src/eng/container/vector.h:156-168 | an empty vector reports `OutOfRange` and is unchanged; otherwise the last element is removed, and the capacity becomes `size * 1.5` truncated exactly when the capacity is at least 2.25 times the size |
| Vector.Vector.Clear | src/eng/container/vector.h:170-176 | no elements remain; the buffer and capacity are unchanged |
| Vector.Vector.Reserve | src/eng/container/vector.h:183-189 | the capacity becomes the larger of the old one and the request, the elements are unchanged, and the buffer is untouched when no growth is needed |
| Vector.Vector.ShrinkToFit | src/eng/container/vector.h:202-208 | the capacity equals the size and the elements are unchanged |
| Vector.Vector.Assign | src/eng/container/vector.h:210-240 | the elements become `count` copies of `value`; the capacity becomes the larger of the old one and `count`; the buffer is reused when large enough |
| Vector.Vector.Get | src/eng/container/vector.h:298-305 | `operator[]` returns the element at the index |
| Vector.Vector.Front | src/eng/container/vector.h:337-344 | returns the first element |
| Vector.Vector.Back | src/eng/container/vector.h:345-352 | returns the last element |
| Vector.Vector.Empty | src/eng/container/vector.h:312-315 | true exactly when there are no elements |
| Vector.PushThenPop | src/eng/container/vector.h:141-168 | `push_back` followed by `pop_back` gives back the same elements |

## Left out

- The line order at stable_sort.h:25: the source reads `*runEnd` before it checks `runEnd != end`, which reads one element past the range at the end of the scan. `Reversal.ReverseStrictlyDecreasing` checks the bound first. The value read past the end never changes the outcome, because the check that follows closes the run anyway.
- Generic iterators and comparators: elements are `Item`s compared on an integer key with `<=` and `>`. Move semantics and the default construction of `new Type[n]` have no effect on values and are not modelled. The buffer is a fresh `array<Item>` of the same length.
- Freeing the buffer (stable_sort.h:173-175) and all allocation failure are outside Dafny's memory model.
- `size_t` overflow of `i + 2 * windowSize`, `windowSize *= 2` and the vector's sizes: integers are unbounded here.
- The loop bodies of `merge` and `stable_sort` are split into several methods, such as `Merging.MergeFronts` and `StableSort.MergeAt`, so that each can be proved on its own. Together they perform the same reads and writes in the same order.
- Vector construction and destruction of elements (`allocator_traits::construct`/`destroy`) have no effect on values. `Vector.Vector.Clear` and `Vector.Vector.Assign` keep their loops over the slots, but only their effect on size and contents is stated.
- `Vector.Vector.Assign`: a new buffer is allocated only when `count > mCapacity >= mSize`, and then lines 220-223 copy-assign into slots of the new buffer that were never constructed, and the old elements are never destroyed before the old buffer is freed at line 235. The element values are the same as with construction, and construction, destruction and freeing are not modelled.
- `Vector.Vector.PushBack` requires that the state is not size 1 with capacity 1. From there, growth leaves capacity 1 and the write at vector.h:153 falls past the buffer (see Findings).
- `Vector.Vector.PushBack` also models `emplace_back` (vector.h:146-155) with the element already built. `push_back` (vector.h:141-144) only forwards to it.
- The `double` arithmetic of `GROWTH_FACTOR` is modelled exactly: `Vector.GrowthTruncated` and `Vector.ShrinkTestExact` relate it to the integer forms used. Rounding of `double` is not modelled: from about 2^53 / 3 on, `size * 1.5` in `double` can round a half up (first at size 3002399751580333) and then differs from `size + size / 2`.
- `resize` (vector.h:190-201) is not modelled. It constructs the new slots but never updates `mSize`, so the new elements are not part of the vector.
- `reset` (vector.h:177-182) is not modelled. It frees the buffer but leaves `mCapacity` at its old value, a stale capacity for a null buffer.
- Also not modelled from vector.h, as allocator plumbing and byte-level fast paths:
  - copy and move assignment, `swap`, `swap_with_allocator` and `get_allocator`;
  - the `memcpy` paths at lines 49, 254 and 413, which pass element counts as byte counts;
  - `move_if_noexcept`;
  - the move constructor (which copies);
  - the count-only constructor;
  - the iterator-range `assign`;
  - iterators and reverse iterators;
  - `max_size`;
  - `operator<=>`, which reads past the end of a shorter vector.
- `reallocate` is private in the source. `Vector.Vector.Reallocate` is a method of the class like the others.
- The logging element type (src/tracker.h), the demo driver (src/main.cpp) and the stopwatch (src/timer.h) are not part of this model. They do console I/O, random numbers and wall-clock timing.

## Findings

| source | as written | input that shows it | evidently intended | confidence | as-written member | corrected member |
|---|---|---|---|---|---|---|
| src/eng/container/vector.h:148-153 | a full vector grows to `mSize * GROWTH_FACTOR` truncated, which is 1 for size 1 | size 1, capacity 1: capacity stays 1 and the element is constructed at slot 1, past the buffer | growth always makes room for one more element | high (not executed) | Vector.GrowthMakesRoom | Vector.CorrectedGrowthMakesRoom |
