# Histogram sort, modelled in Dafny

A model of the comparison-free histogram (counting) sort in `hist-sort.c` and of the
adjacent-pair check `is_sorted` that its driver runs on the result.

`sort` takes an array of unsigned integers and a bound `max`. It allocates `max + 1`
zeroed counters and counts how often each value occurs. It then walks the counters in
ascending order and overwrites the array with each value as many times as it was
counted, decrementing that counter to zero. `is_sorted` returns 1 when every adjacent
pair is in non-decreasing order and 0 at the first inversion.

Files:

- `sortedness.dfy` (module `Sortedness`): `Sorted` (every earlier element is at most
  every later one) and `AdjacentSorted` (the pairwise test `is_sorted` makes), the proof
  that the two agree, the proof that a sorted permutation is unique, and `IsSorted`,
  the loop of `is_sorted` proved to return exactly `1` for sorted input and `0`
  otherwise.
- `hist_sort.dfy` (module `HistSort`): the specification functions `Histogram` (the
  count of each value `0..max`), `Total` (the sum of the counters), `Expand` (walk the
  counters in ascending order, emitting each index as often as its count) and
  `HistSorted = Expand ∘ Histogram`, with their lemmas. Then the imperative model of
  `sort`:
  - `CountValues` is the counting loop, lines 29-35.
  - `EmitCounts` is the nested emitting loops, lines 37-41.
  - `Sort` runs the two in order.
  - `FillRandom` is `fill_random` with the `rand()` results passed in.

`Sort` is proved to leave `HistSorted(old data, max)` in the array. That result is
sorted and a permutation of the input, and it is the only sorted permutation of the
input. So sorting is idempotent and leaves sorted data unchanged. `EmitCounts` also
proves that every counter is zero on exit and that the emitting loop writes exactly
`length` elements without going past the end.

Values (`unsigned int`) and counters (`size_t`) are modelled as unbounded `nat`s. The
`length` parameters are the lengths of the Dafny arrays.

## Model

| member | source | states |
|---|---|---|
| `Sortedness.IsSorted` | hist-sort.c:8-17 | returns 0 or 1; returns 1 exactly when every adjacent pair is non-decreasing, which is exactly when the whole array is sorted; an empty array counts as sorted |
| `Sortedness.AdjacentSortedIffSorted` | hist-sort.c:12-16 | checking only adjacent pairs decides full sortedness (every i < j has data[i] <= data[j]) |
| `Sortedness.SortedPermutationUnique` | hist-sort.c:27-42 | two sorted sequences with the same multiset of values are equal, so a sort's output is fixed by its input's values |
| `Sortedness.HeadIsLeast` | hist-sort.c:27-42 | the first element of a sorted sequence is at most every element of any permutation of it |
| `Sortedness.LoopBoundAsWritten` | hist-sort.c:12 | the loop bound `length-1` in `size_t` arithmetic is length - 1 for length >= 1 and wraps to SIZE_MAX for length 0 |
| `Sortedness.EmptyArrayEntersLoop` | hist-sort.c:12-13 | with the bound as written, an empty array enters the loop body at i = 0, which reads data[0] and data[1] |
| `HistSort.CountValues` | hist-sort.c:29-35 | allocates max + 1 fresh counters starting at zero; after the counting loop, counter v equals the number of occurrences of v in the data, for every v in [0, max]; requires every element <= max |
| `HistSort.EmitCounts` | hist-sort.c:37-41 | given counters summing to the data length, overwrites the data with each index repeated as often as its counter, in ascending order; every counter is zero on exit |
| `HistSort.Sort` | hist-sort.c:27-42 | requires every element <= max; leaves HistSorted of the old data in the array, which is sorted and has the same multiset of values as the input |
| `HistSort.FillRandom` | hist-sort.c:19-25 | element k becomes draws[k] % max + 1, so every element lies in [1, max] and satisfies the sort's bound; requires max > 0 |
| `HistSort.TotalPrefix` | hist-sort.c:37-41 | the counters consumed so far never sum to more than all counters, so the write index j stays below the data length |
| `HistSort.ExpandLength` | hist-sort.c:37-41 | the emitting loop writes exactly as many elements as the counters sum to |
| `HistSort.ExpandBelow` | hist-sort.c:38-40 | every value written is a counter index, so at most max |
| `HistSort.ExpandSorted` | hist-sort.c:37-41 | writing counter indices in ascending order produces a non-decreasing sequence |
| `HistSort.ExpandCounts` | hist-sort.c:38-40 | each index v is written exactly as many times as its count, and no value outside the table is written |
| `HistSort.RepeatCount` | hist-sort.c:39-40 | the inner loop's run of c copies of i holds i exactly c times and no other value |
| `HistSort.HistSortedPermutation` | hist-sort.c:33-41 | for in-range data, the sorted output has the same multiset of values and the same length as the input |
| `HistSort.HistogramTotal` | hist-sort.c:29-35 | the counters of in-range data sum to its length |
| `HistSort.HistSortedSorted` | hist-sort.c:37-41 | the sorted output is non-decreasing |
| `HistSort.HistSortedUnique` | hist-sort.c:27-42 | any sorted permutation of in-range data equals the sort's output |
| `HistSort.SortSortedIsIdentity` | hist-sort.c:27-42 | sorting data that is already sorted leaves it unchanged |
| `HistSort.HistSortedIdempotent` | hist-sort.c:27-42 | the output is in range again, and sorting it a second time changes nothing |
| `HistSort.WorkedHistogram` | hist-sort.c:29-35 | the input 5,4,0,5,0,1,4,2,1,1,3 with max 5 gives the counters 2,3,1,1,2,2 |
| `HistSort.WorkedExpansion` | hist-sort.c:37-41 | expanding the counters 2,3,1,1,2,2 gives 0,0,1,1,1,2,3,4,4,5,5 |
| `HistSort.WorkedExample` | hist-sort.c:27-42 | sorting 5,4,0,5,0,1,4,2,1,1,3 with max 5 gives 0,0,1,1,1,2,3,4,4,5,5 |

## Left out

- `dump_data` (hist-sort.c:44-52) and `main` (hist-sort.c:54-76): console output, time-based seeding with `srand(time(NULL))`, and the fixed `COUNT`/`RANGE` driver.
- `FillRandom`: `rand()` is not modelled; its results come in as the `draws` parameter. Nothing about their distribution is claimed.
- Allocation: the `calloc` of the counters is assumed to succeed (the source never checks it for NULL), and the leak of `hist` is not modelled.
- `Sort`: does not model the 32-bit width of `unsigned int`. With `max == UINT_MAX`, `max+1` wraps to 0, so `calloc` gets 0 counters and the loop at line 38 never runs. Values are unbounded `nat`s here.
- `CountValues`: an element greater than `max` makes line 34 write outside the counters, which is undefined behaviour. The model requires every element to be at most `max` and does not give that case a defined error.
- `IsSorted`: for an empty array it returns 1. The source's `length-1` wraps at line 12 and the loop reads past the end. The as-written bound is kept in `LoopBoundAsWritten`.
- The `length` parameters of `sort`, `is_sorted` and `fill_random` are the Dafny arrays' own lengths. A caller passing a length shorter than the buffer is not modelled.

## Findings

| source | as written | input that shows it | evidently intended | confidence | as-written member | corrected member |
|---|---|---|---|---|---|---|
| hist-sort.c:12 | the loop bound `length-1` is computed in `size_t`, so it wraps to SIZE_MAX when `length == 0` and the loop compares `data[0]` with `data[1]` | `is_sorted(data, 0)` | an empty array is sorted and nothing is read | high (not executed) | `Sortedness.EmptyArrayEntersLoop` | `Sortedness.IsSorted` |
