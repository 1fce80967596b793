# WikiSort scaffold in Dafny

This project models the working parts of the Go package `wikisort`:

- the `Range` and `Pull` records;
- the balanced block-size `Iterator`, which cuts an array of `size` items into `denominator` ranges whose lengths differ by at most one, then doubles the block length level by level;
- the bit-smearing `FloorPowerOfTwo`;
- the recursive `mergeSort` over a slice of ints, which uses a package-level cache of `len(input)/2 + 1` slots.

The project has five modules:

- `Utils` (utils.go). The model assumes a 64-bit platform, where Go's `int` is 64 bits wide. It is modelled as `bv64`, restricted to non-negative values.
- `Ranges` (the records of wikisort.go). `Range` is a datatype. `Pull` is a class, because `Reset` updates it in place.
- `BlockIterator`: the `Iterator` as a class whose methods update its fields.
  - Ghost fields record the level, where the level began and how many ranges it has emitted.
  - `Valid()` states the invariant: the block length and the position are exact fractions over `denominator`, kept proper (numerator below `denominator`).
  - `Slice` and `LevelRanges` are reference definitions of what one level emits.
- `SortSpec`: what `mergeSort` computes, as functions on sequences (`MergeFrom`, `Merge`, `Combine`, `MergeSortSeq`), with their properties.
- `MergeSorting`: `mergeSort` as methods on an array.
  - A Go sub-slice is an index range `[lo, hi)` of one array.
  - The cache is a second array.

## Model

| member | source | states |
|---|---|---|
| Utils.FloorPowerOfTwo | utils.go:5-12 | As written, on every non-negative 64-bit int: 0 exactly for 0. For values below 2^32, a non-zero value gives a power of two p with p <= value < 2p. |
| Utils.FloorPowerOfTwoAsWrittenAbove32Bits | utils.go:7-12 | As written, the routine maps 2^33 to 2^33 - 2, which is not a power of two. |
| Utils.FloorPowerOfTwo64 | utils.go:3-12 | Corrected routine. For every non-negative 64-bit int: 0 exactly for 0, otherwise a power of two p with p <= value and value - p < p (the largest power of two not above value). |
| Utils.FloorPowerOfTwoAgreesBelow32Bits | utils.go:5-12 | Below 2^32 the corrected routine and the routine as written return the same word. |
| Utils.FloorPowerOfTwo64Band | utils.go:3-12 | A value whose highest set bit is bit k yields exactly 2^k. |
| Utils.FloorPowerOfTwoExamples | utils.go:3-4 | The documented examples: 63 -> 32 and 64 -> 64, for both routines. |
| Utils.FloorPowerOfTwo64FixesPowers | utils.go:3-12 | A power of two is returned unchanged. |
| Utils.FloorPowerOfTwoFixesPowersBelow32Bits | utils.go:3-12 | Below 2^32 the routine as written returns a power of two unchanged. |
| Utils.FloorPowerOfTwo64Idempotent | utils.go:3-12 | Applying the routine twice is the same as applying it once. |
| Ranges.Range.Length | wikisort.go:37-39 | start + Length == end, and for a non-empty range Length is the number of positions it covers. |
| Ranges.Range.Positions | wikisort.go:22-24 | The positions of the half-open range [start, end), in increasing order: end - start of them, or none when end < start. |
| Ranges.Pull.constructor | wikisort.go:26-29 | A new Pull is the zero record. |
| Ranges.Pull.Reset | wikisort.go:41-44 | from, to and count become 0, and the range becomes the empty range {0, 0}. |
| BlockIterator.Iterator.constructor | wikisort.go:46-58 | powerOfTwo is what FloorPowerOfTwo as written gives for size, as on line 47, and denominator is powerOfTwo / minLevel. The exact block length decimalStep + numeratorStep/denominator equals size/denominator, with numeratorStep < denominator. The position starts at 0 and Valid() holds. |
| BlockIterator.Iterator.NextRange | wikisort.go:60-70 | The range starts where the previous one ended. It is decimalStep or decimalStep + 1 long. The exact position advances by exactly one block length. On the first level the k-th range is Slice(k, size, denominator). Valid() is kept, and the step and size do not change. |
| BlockIterator.Iterator.IsNextLevel | wikisort.go:72-81 | The exact block length doubles, and decimalStep becomes its value rounded down. The result is true exactly when decimalStep < size, which holds exactly when 2^level < denominator. The position is unchanged and Valid() is kept. |
| BlockIterator.Iterator.IsFinished | wikisort.go:83-85 | On the first level the iterator is finished exactly when all denominator ranges have been emitted. |
| BlockIterator.Iterator.Length | wikisort.go:87-89 | The current block length is the exact block length rounded down. |
| BlockIterator.Iterator.FirstLevelPosition | wikisort.go:60-70 | On the first level the position after k ranges is k * size / denominator, rounded down. |
| BlockIterator.Iterator.FirstLevelFinished | wikisort.go:83-85 | On the first level, decimal >= size exactly when at least denominator ranges have been emitted. |
| BlockIterator.Iterator.FirstLevelEnd | wikisort.go:60-70 | After denominator ranges, the first level ends exactly at size, with numerator 0. |
| BlockIterator.LevelRanges | wikisort.go:60-70 | The reference list of one level's ranges has denominator entries, and the k-th is Slice(k, size, denominator). |
| BlockIterator.LevelRangesPartition | wikisort.go:46-70 | The first level partitions [0, size): it starts at 0 and ends at size, each range ends where the next starts, lengths are size/den or size/den + 1, and the lengths sum to size. |
| BlockIterator.BoundaryStep | wikisort.go:60-70 | Consecutive range boundaries are scaled/den or scaled/den + 1 apart. |
| BlockIterator.LevelEnds | wikisort.go:46-70 | The first boundary of a level is 0 and the denominator-th is size. |
| BlockIterator.BoundaryBelowSize | wikisort.go:83-85 | The k-th boundary is below size exactly when k < denominator. |
| BlockIterator.PrefixTotal | wikisort.go:60-70 | The first n ranges of a level have total length equal to the n-th boundary. |
| BlockIterator.LevelBelowSize | wikisort.go:72-81 | The block length after `level` doublings, rounded down, is below size exactly when 2^level < denominator. |
| BlockIterator.StepForward | wikisort.go:62-68 | Adding whole parts and numerators, then carrying once, is exact fraction addition, and the numerator stays below the denominator. |
| BlockIterator.AdvanceRange | wikisort.go:60-70 | One NextRange step moves the exact position by one block length and the whole part by decimalStep or decimalStep + 1. On the first level it moves from one boundary to the next. |
| BlockIterator.DoubleStep | wikisort.go:72-81 | One IsNextLevel step doubles the exact block length. Its rounded-down value is Pow2(level+1) * size / den, and that is below size exactly when 2^(level+1) < den. |
| BlockIterator.DivisionUnique | wikisort.go:53-54 | Whole part and remainder below a positive denominator are unique: they are the quotient and remainder. |
| BlockIterator.InitialStep | wikisort.go:47-54 | For NewIterator's powerOfTwo and denominator, the size is positive, and size / denominator and size % denominator give exactly size, with the remainder below the denominator. |
| BlockIterator.PositiveFloorMeansPositiveSize | wikisort.go:46-48 | A positive floor power of two means a positive size. |
| SortSpec.MergeFrom | wikisort.go:117-133 | The merge from a point of the loop onward is as long as what remains of both halves. |
| SortSpec.MergeFromPermutation | wikisort.go:117-133 | Merging keeps the multiset of the remaining elements of both halves. |
| SortSpec.MergeFromSorted | wikisort.go:117-133 | Merging sorted halves gives a sorted sequence. |
| SortSpec.MergeFromHead | wikisort.go:119-127 | The first merged element is the next element of one of the halves, the left one on ties. |
| SortSpec.MergeStep | wikisort.go:118-127 | One loop iteration: the next output is the smaller head (the left one on ties), and the merge continues from the advanced half. |
| SortSpec.MergeFromInOrder | wikisort.go:113-115 | When the left half's last element is at most the right half's first, merging is concatenation. |
| SortSpec.Combine | wikisort.go:113-133 | Putting the two sorted halves back together keeps the total length. |
| SortSpec.CombineIsMerge | wikisort.go:113-115 | For sorted halves, the early exit of line 113 gives the same result as the full merge. |
| SortSpec.CombineCorrect | wikisort.go:113-133 | Combining sorted halves gives a sorted permutation of both. |
| SortSpec.MergeSortSeq | wikisort.go:103-135 | mergeSort on values preserves length. |
| SortSpec.MergeSortSeqCorrect | wikisort.go:103-135 | mergeSort's result is sorted and a permutation of its input. |
| SortSpec.SortedPermutationUnique | wikisort.go:103-135 | Two sorted permutations of the same multiset are equal, so mergeSort computes the one sorted order. |
| SortSpec.MergeSortSeqIdempotent | wikisort.go:103-135 | Sorted input is left unchanged, and sorting twice is sorting once. |
| SortSpec.SortedConcat | wikisort.go:113-115 | Sorted halves in order form a sorted whole. |
| MergeSorting.Copy | wikisort.go:116 | Go's copy: the n target positions receive the source elements, and every other position is unchanged. |
| MergeSorting.MergeRun | wikisort.go:117-133 | The merge loop up to the final copy. It ends with the left half or the right half used up. Every position written so far holds the merge of the two halves. The unread right tail is still in place, and the rest of the merge is what remains. |
| MergeSorting.MergeHalves | wikisort.go:116-133 | Copying the left half into the cache and merging writes exactly Merge(left half, right half) into [lo, hi), and nothing outside it changes. |
| MergeSorting.MergeSort | wikisort.go:103-135 | The slice [lo, hi) becomes MergeSortSeq of its old contents, and nothing outside it changes. The cache needs only (hi - lo)/2 slots. |
| MergeSorting.SortedHalves | wikisort.go:108-115 | After both recursive calls, the result of mergeSort is Combine of the two sorted halves. |
| MergeSorting.Frames | wikisort.go:110-111 | Each recursive call changes only its own half. |
| MergeSorting.SortWithCache | wikisort.go:101 | With a cache of len(input)/2 + 1 slots, the whole array ends up sorted and a permutation of what it was. |
| MergeSorting.MergeLoopAsWritten | wikisort.go:117-133 | As written: the loop stores cache[i] on line 120 and ends in IndexOutOfRange when i passes the cache. A completed run keeps the input's length. |
| MergeSorting.MergeLoopAsWrittenLosesElements | wikisort.go:120 | On [2, 3, 1, 4] with the three-slot cache, the loop as written yields [1, 3, 0, 4], which is not a permutation of the input, while Merge gives [1, 2, 3, 4]. |
| MergeSorting.MergeLoopAsWrittenOutOfRange | wikisort.go:120 | On [3, 4, 5, 6, 1, 2, 7, 8] with the five-slot cache, the loop as written reads past the end of the cache. |

## Left out

- `main.go` is a benchmark driver and is not modelled: it generates 32 million random floats, sums their squares and logs the elapsed time. It uses clocks, logging, randomness and floating point.
- `WikiSorter.Sort` and the `main` of wikisort.go have empty bodies and are not modelled. The same goes for the `WikiSorter` record.
- `Comperable`, `SortableObject` and its `Equals`/`GreaterEqual` stubs always return false and are never used by the sort. `mergeSort` works on ints, so the model sorts ints.
- The package-level `input` and `cache` variables are parameters: the array to sort and the cache array. The sample data on line 100 is not modelled.
- Go slices are modelled as index ranges of one array. Aliasing between sub-slices of the same backing array is captured this way, but slice headers and capacity are not modelled.
- `MergeSorting.MergeRun` lifts the two `break`s of the Go loop into the loop guard. The copy of line 129 follows the loop, in `MergeSorting.MergeHalves`. The order of writes is the same.
- `MergeSorting.MergeSort` and `MergeSorting.MergeHalves` state nothing about the cache contents afterwards, only that the cache is large enough.
- `BlockIterator.Iterator.constructor` requires `FloorPowerOfTwo(size) / minLevel > 0` and a positive `minLevel`. A zero quotient makes Go divide by zero (on line 48 for a zero `minLevel`, on lines 53-54 otherwise); that panic is not modelled. A negative `minLevel` gives Go a negative or zero denominator, and that iterator is not modelled either. The same requires also excludes a size below `minLevel`, where the WikiSort design would use one range covering everything. Go does not: `NewIterator(3, 4)` gets powerOfTwo 2 and denominator 0, then panics on line 53.
- `BlockIterator.Iterator.constructor` calls `FloorPowerOfTwo` as written, as Go does, so for sizes of 2^32 and above `powerOfTwo` need not be a power of two (see Findings). The iterator's own contracts hold for any positive denominator.
- `BlockIterator.Iterator.constructor` takes `size` as a non-negative 64-bit word. Negative sizes are not modelled, and neither is the arithmetic right shift Go uses on them.
- `BlockIterator.Iterator.NextRange`, `BlockIterator.Iterator.IsNextLevel`: `decimalStep` and `decimal` are unbounded ints, so the model does not wrap. Go wraps once either reaches 2^63. For sizes of 2^62 and above this can happen on the first `IsNextLevel`. For example, with `NewIterator(2^62, 2^61)` the denominator is 1 and `decimalStep` is 2^62. Go wraps the doubled value to -2^63 and returns true, while the model holds 2^63 and returns false. On later levels `decimal` keeps growing past `size` and can overflow too.
- `BlockIterator.Iterator.IsFinished` states its meaning only on the first level. On later levels the Go iterator is never rewound, and the model keeps that behaviour.
- `Utils.FloorPowerOfTwo` states the floor-power property only below 2^32, because the routine as written is wrong above (see Findings). Negative arguments are not modelled.

## Findings

| source | as written | input that shows it | evidently intended | confidence | as-written member | corrected member |
|---|---|---|---|---|---|---|
| wikisort.go:120 | `input[i] = cache[i]`: the merge stores the cache slot at the output index | `[2, 3, 1, 4]` with the three-slot cache gives `[1, 3, 0, 4]`. The eight-element `[3, 4, 5, 6, 1, 2, 7, 8]` reads `cache[5]` of a five-slot cache | `input[i] = cache[l]`, the next element of the left half | high; not executed | MergeSorting.MergeLoopAsWrittenLosesElements | MergeSorting.MergeHalves |
| utils.go:5-12 | the OR-shift chain stops at `x >> 16`, which smears 31 bit positions | `1 << 33` gives `(1 << 33) - 2` on 64-bit platforms, where Go's int is 64 bits wide | a further `x = x \| (x >> 32)` step for 64-bit words | high; not executed | Utils.FloorPowerOfTwoAsWrittenAbove32Bits | Utils.FloorPowerOfTwo64 |
