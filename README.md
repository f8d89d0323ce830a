# sorting-algorithms, modelled in Dafny

This project models the benchmark harness of `oguztoraman/sorting-algorithms`. The clock, the random number generator and the files are left out.

The harness has four parts:

- **The six sorts.** There are six instrumented, in-place sorting routines of the `sorting_algorithms` class: selection, bubble, Lomuto quick, top-down merge, insertion and binary max-heap. Each sorts a `std::vector<int>`. Each adds to two counters, `comparison` and `assignment`, passed by reference. The counters are bumped exactly where the C++ code bumps them.
- **The `algorithm_base` harness.** It validates its arguments. It keeps `m_input_size == |m_vec|` across every constructor and setter. It runs a routine `m_test_count` times on fresh copies of the input. It reduces the trial durations to a median and a truncated mean, and divides the counters by the test count. Finally it writes the report table of the routines that a six-bit `std::bitset` selects.
- **Text formatting.** This covers:
  - `readable` for integers, which inserts a `'` before every group of three digits;
  - `readable` for durations, which writes minutes, seconds, milliseconds and microseconds;
  - the fixed-width cells with their overflow check;
  - the horizontal lines;
  - the table string of `algorithm_comparison_table`, which its `add_*` methods only append to.
- **The `center` stream manipulator.** `inc/center.hpp:11-43` is the same code as `inc/algorithm_utility.hpp:76-108`, so it is modelled once. Each `Centering` row below cites the `algorithm_utility.hpp` copy.

## Layout

- **`Outcomes`** (`outcomes.dfy`): the thrown exceptions, as values: `std::runtime_error` with its message, and `std::length_error`.
- **`Order`** (`order.dfy`): the shared spec parts of the sorts:
  - sortedness and inversion counts;
  - `std::swap` on a buffer, as the function `Swapped` and the method `Swap`;
  - the multiset lemmas.
- **`SelectionSpec`, `MergeSpec` and `HeapSpec`**: reference definitions that the in-place methods are proved against.
  - `SelectionSpec` has the leftmost minimum and the comparison count of selection sort.
  - `MergeSpec` has a functional, generic, keyed merge sort `MergeSortBy`, with its comparison and write counts. Its int instance `SortInts` is proved equal to `MergeSortBy(·, Id)` by `IntsAreIdInstance`. The int instance exists because the in-place merge-sort proofs about `array<int>` need it: written without a key function, it keeps them within the solver's resource limit. Stability and the generic laws are proved once, on `MergeSortBy`.
  - `HeapSpec` has the heap condition.
- **One module per routine:** `SelectionSorting`, `BubbleSorting`, `QuickSorting`, `MergeSorting`, `InsertionSorting` and `HeapSorting`. Each is an imperative method on an `array<int>` with loop invariants and recursion that mirror the C++ code.
- **`Sorting`** (`algorithms.dfy`): the `algorithms` bit enumeration, the name table, and reading a selection bit by bit. `Run` calls `functions[i]`.
- **`Text`, `Centering`, `Layout` and `Stats`**:
  - decimal strings, digit grouping and durations (`Text`);
  - `center` (`Centering`);
  - column widths and lines (`Layout`);
  - median and mean (`Stats`).
- **`AlgorithmBase`**: the `Harness` class with the fields `vec`, `testCount`, `inputSize` and `timeVec`, plus the table functions of `algorithm_base`.
- **`ComparisonTable`**: the `Table` class whose `table` string the `add_*` methods append to.

The sort routines are called with `size == vec.size()`. The `Harness` invariant `inputSize == |vec|` guarantees this, so the model passes the buffer alone and uses its length.

## Model

| member | source | states |
|---|---|---|
| Order.Swapped | inc/sorting_algorithms.hpp:73 | Exchanging two cells keeps the length and the multiset, puts each value in the other's cell, and leaves every other cell as it was. |
| Order.Swap | inc/sorting_algorithms.hpp:125 | The buffer after `std::swap(vec[i], vec[j])` is `Swapped` of the old buffer. |
| Order.InversionsSwap | inc/sorting_algorithms.hpp:83-87 | Exchanging an out-of-order neighbouring pair removes exactly one inversion. |
| Order.SortedIffNoInversions | inc/sorting_algorithms.hpp:77-90 | A sequence is sorted if and only if it has no inversion. |
| Order.CountLessZero | inc/sorting_algorithms.hpp:77-90 | No element of t is below x if and only if x is at most every element of t. |
| Order.CountLessSwap | inc/sorting_algorithms.hpp:86 | Exchanging neighbours does not change how many elements lie below a value. |
| Order.FixtureInversions | inc/sorting_algorithms.hpp:81-89 | `[5, 3, 4, 1, 2]` has eight inversions. Bubble sort therefore counts 8 comparisons and 16 assignments on it. |
| Order.SortedAroundPivot | inc/sorting_algorithms.hpp:104-110 | Two sorted runs, the left at most a pivot and the right above it, form one sorted run around the pivot. |
| SelectionSpec.ArgMinIsLeftmostMin | inc/sorting_algorithms.hpp:65-71 | The inner scan ends on a minimum of the scanned cells, and on the first one. |
| SelectionSpec.NewMinimaBound | inc/sorting_algorithms.hpp:66-71 | A scan over k cells finds at most k - 1 new minima. |
| SelectionSpec.NewMinimaSorted | inc/sorting_algorithms.hpp:66-71 | On sorted input the scan finds no new minimum and stays on its first cell. |
| SelectionSpec.SelectionComparisonsSorted | inc/sorting_algorithms.hpp:64-74 | Selection sort counts no comparison on sorted input. |
| SelectionSpec.SelectionComparisonsBound | inc/sorting_algorithms.hpp:64-74 | Selection sort counts at most n(n-1)/2 comparisons. |
| SelectionSpec.SelectionFixture | inc/sorting_algorithms.hpp:64-74 | `[3, 2, 1]` costs two comparisons. |
| SelectionSorting.SelectionSort | inc/sorting_algorithms.hpp:60-75 | The buffer ends sorted and a permutation of the input. `comparison` grows by `SelectionComparisons` of the input. `assignment` grows by exactly 2(n - 1), or by 0 when n = 0, even for passes where `min == i`. |
| SelectionSorting.ScanMinimum | inc/sorting_algorithms.hpp:65-71 | The scan from i returns the leftmost minimum of cells i.. and counts one comparison per new minimum found. |
| SelectionSorting.ScanStep | inc/sorting_algorithms.hpp:67-70 | One more scanned cell moves the minimum exactly when that cell is strictly smaller, and counts exactly then. |
| SelectionSorting.SelectionPass | inc/sorting_algorithms.hpp:64-74 | Exchanging cell i with the leftmost minimum of cells i.. extends the sorted, bounded prefix by one and keeps the multiset. |
| BubbleSorting.BubbleSort | inc/sorting_algorithms.hpp:77-90 | The buffer ends sorted and a permutation of the input. The comparison delta is the inversion count of the input, and the assignment delta is twice that. |
| BubbleSorting.BubblePass | inc/sorting_algorithms.hpp:82-88 | One inner pass leaves the maximum of the first n + 1 cells at n and leaves the later cells untouched. Each counted comparison removes one inversion, with two assignments each. |
| BubbleSorting.PassStep | inc/sorting_algorithms.hpp:83-87 | A pair is exchanged and counted exactly when it is out of order. |
| BubbleSorting.BubbleOuterStep | inc/sorting_algorithms.hpp:81-89 | After pass i, the sorted tail, which no earlier cell exceeds, grows by one cell. |
| QuickSorting.QuickSort | inc/sorting_algorithms.hpp:92-97 | The buffer ends sorted and a permutation of the input. Both counters only grow. The assignment delta is twice the comparison delta plus an even amount that is at most 2(n - 1), and at least 2 when n >= 2. |
| QuickSorting.QuickSortRange | inc/sorting_algorithms.hpp:99-111 | Cells low..high end sorted and a permutation of what they held; all other cells are unchanged. The assignment delta is 2·(comparison delta) + 2·(number of partitions), with between 1 and high - low partitions when low < high. |
| QuickSorting.QuickStep | inc/sorting_algorithms.hpp:104-110 | A partition followed by the two recursive calls sorts the window and adds up the counters. |
| QuickSorting.Partition | inc/sorting_algorithms.hpp:113-131 | Returns p with low <= p <= high and `vec[p]` the old pivot `vec[high]`. Cells low..p-1 are at most the pivot and cells p+1..high exceed it. The window is a permutation of what it held and nothing outside it changes. The comparison delta is p - low, and the assignment delta is 2·(comparison delta) + 2. |
| QuickSorting.PartitionStep | inc/sorting_algorithms.hpp:121-126 | One loop turn keeps the Lomuto invariant and counts one comparison and two assignments exactly when the cell is at most the pivot. |
| QuickSorting.PartitionTake | inc/sorting_algorithms.hpp:121-126 | A cell at most the pivot is counted and swapped to the end of the low run. |
| QuickSorting.PartitionPlace | inc/sorting_algorithms.hpp:128-130 | The final swap puts the pivot between the two runs. |
| MergeSpec.MergeByLength | inc/sorting_algorithms.hpp:153-194 | A merge has as many elements as its two runs together. |
| MergeSpec.MergeByMultiset | inc/sorting_algorithms.hpp:153-194 | A merge is a permutation of its two runs. |
| MergeSpec.MergeBySorted | inc/sorting_algorithms.hpp:169-193 | Merging two sorted runs gives a sorted run. |
| MergeSpec.MergeByStable | inc/sorting_algorithms.hpp:173 | Because ties take the left run, the elements of any one key come out in the order of the left run followed by the right run. |
| MergeSpec.MergeComparisonsBounds | inc/sorting_algorithms.hpp:170-181 | A merge counts at least as many comparisons as the shorter run has elements and at most as many as both runs together, and strictly fewer than that when either run is non-empty. |
| MergeSpec.MergeSortByMultiset | inc/sorting_algorithms.hpp:140-151 | The merge sort is a permutation of its input. |
| MergeSpec.MergeSortBySorted | inc/sorting_algorithms.hpp:140-151 | The merge sort is sorted by its key. |
| MergeSpec.MergeSortByStable | inc/sorting_algorithms.hpp:140-151 | The merge sort is stable: the elements of each key keep their input order. |
| MergeSpec.MergeSortByLength | inc/sorting_algorithms.hpp:140-151 | The merge sort keeps the length. |
| MergeSpec.MergeSortComparisonsBound | inc/sorting_algorithms.hpp:140-151 | The comparison count of the merge sort plus the length is at most its write count plus one: every merge saves at least one comparison against its writes. |
| MergeSpec.MergeSortWritesPow2 | inc/sorting_algorithms.hpp:140-151 | On 2^k cells the merge sort writes exactly k·2^k cells. |
| MergeSpec.SortedById | inc/sorting_algorithms.hpp:173 | Sortedness by the identity key is plain sortedness. |
| MergeSpec.MergeIntsById | inc/sorting_algorithms.hpp:169-193 | The merge on int values is the keyed merge at the identity key, and so are its comparisons. |
| MergeSpec.IntsAreIdInstance | inc/sorting_algorithms.hpp:140-151 | The merge sort on int values is the keyed merge sort at the identity key, and so are its comparisons. |
| MergeSorting.MergeSort | inc/sorting_algorithms.hpp:133-138 | The buffer becomes exactly `MergeSortBy` of the input, so it is sorted, a permutation and stable. `comparison` grows by that sort's comparison count. `assignment` grows by `MergeSortWrites(n)`. |
| MergeSorting.MergeSortRange | inc/sorting_algorithms.hpp:140-151 | Cells l..r become the merge sort of what they held and nothing else changes. The counters grow by that range's comparison and write counts. |
| MergeSorting.MergeSortSplit | inc/sorting_algorithms.hpp:145-150 | The recursive case splits at m = l + (r - l) / 2, which is the split of the functional merge sort, with the same contents and counts. |
| MergeSorting.MergeSortStep | inc/sorting_algorithms.hpp:147-149 | Two half sorts and a merge, described by snapshots of the buffer, sort l..r with the summed counts. |
| MergeSorting.SplitAtMiddle | inc/sorting_algorithms.hpp:146 | The middle of l..r splits it where `LeftHalf` splits a sequence of r - l + 1 elements. |
| MergeSorting.WritesAt | inc/sorting_algorithms.hpp:145-150 | The write count of l..r is those of both halves plus r - l + 1. |
| MergeSorting.Merge | inc/sorting_algorithms.hpp:153-194 | Cells p..r become the merge of runs p..q and q+1..r, and nothing else changes. The comparison delta is the merge's comparison count, and the assignment delta is exactly r - p + 1. |
| MergeSorting.CopyRun | inc/sorting_algorithms.hpp:163-168 | The `push_back` loops copy exactly cells lo..lo+n-1. |
| MergeSorting.MergeBack | inc/sorting_algorithms.hpp:169-193 | Writing L and M back into p..r produces their merge, with the merge's comparisons and one assignment per cell. |
| MergeSorting.MergeBoth | inc/sorting_algorithms.hpp:170-181 | The first loop stops when a run is exhausted. It has written the first i + j elements of the merge, and has counted one comparison and one assignment for each. |
| MergeSorting.WriteLeft | inc/sorting_algorithms.hpp:173-175 | Taking the left head on a tie or when it is smaller extends the merged prefix and counts one comparison and one assignment. |
| MergeSorting.WriteRight | inc/sorting_algorithms.hpp:176-179 | Taking the strictly smaller right head extends the merged prefix and counts one comparison and one assignment. |
| MergeSorting.DrainLeft | inc/sorting_algorithms.hpp:182-187 | The second loop copies the rest of L, with one assignment per element and no comparison. |
| MergeSorting.DrainRight | inc/sorting_algorithms.hpp:188-193 | The third loop copies the rest of M, with one assignment per element and no comparison. |
| InsertionSorting.InsertionSort | inc/sorting_algorithms.hpp:196-212 | The buffer ends sorted and a permutation of the input. The comparison delta is the inversion count of the input. The assignment delta is that count plus n - 1: one per shift and one placement per pass. |
| InsertionSorting.InsertKey | inc/sorting_algorithms.hpp:200-211 | One pass, with the guard `j >= 0` tested before `vec[j]` is read, inserts `vec[i]` into the sorted prefix and leaves later cells alone. Each shift removes one inversion and counts one comparison and one assignment, plus one assignment for the placement. |
| InsertionSorting.ShiftStep | inc/sorting_algorithms.hpp:203-207 | A shift `vec[j + 1] = vec[j]` is, seen through the key, an exchange of an out-of-order neighbouring pair. |
| InsertionSorting.InsertDone | inc/sorting_algorithms.hpp:209-210 | Dropping the key once a cell at most it, or the front, is reached makes cells 0..i sorted. |
| InsertionSorting.GuardReadsAsWritten | inc/sorting_algorithms.hpp:203 | The guard as written reads `vec[j]` before testing `j >= 0`. The indices it reads start at j and stay within -1..j. |
| InsertionSorting.ReadsBeforeStart | inc/sorting_algorithms.hpp:203 | The guard as written reads `vec[-1]` if and only if the key is smaller than every earlier cell. |
| InsertionSorting.ReadsBeforeStartFixture | inc/sorting_algorithms.hpp:203 | On `[2, 1]` the guard as written reads `vec[0]` and then `vec[-1]`. |
| HeapSpec.HeapAncestor | inc/sorting_algorithms.hpp:228-249 | In a heap every node is at most the root. |
| HeapSpec.HeapRootIsMax | inc/sorting_algorithms.hpp:221-225 | The root of a non-empty heap is its maximum. |
| HeapSpec.LeavesAreHeaps | inc/sorting_algorithms.hpp:218 | The nodes from size/2 on satisfy the heap condition as they stand. This is why the build loop starts at size/2 - 1. |
| HeapSpec.HeapAfterExtract | inc/sorting_algorithms.hpp:222-224 | Exchanging the root with the last cell and shrinking the heap leaves every node except the root a heap. |
| HeapSorting.HeapSort | inc/sorting_algorithms.hpp:214-226 | The buffer ends sorted and a permutation of the input. The assignment delta is exactly 2n for the extractions, including the i = 0 self-swap. On top of that it adds an even amount that lies between the comparison delta and twice it. |
| HeapSorting.BuildHeap | inc/sorting_algorithms.hpp:218-220 | The build loop leaves cells 0..size-1 a max-heap and a permutation of the input. It makes two assignments and one or two comparisons per exchange. |
| HeapSorting.SiftDown | inc/sorting_algorithms.hpp:228-249 | When both subtrees of i are heaps, the sift restores the heap from lo on. It moves only cells i..size-1 and keeps the multiset. It makes at most size - i exchanges, with two assignments and one or two comparisons each. |
| HeapSorting.Largest | inc/sorting_algorithms.hpp:233-243 | The largest of node i and its children inside the heap is found. Each test that moves `largest` is counted, so there are no comparisons when i stays largest and one or two otherwise. |
| HeapSorting.SiftStep | inc/sorting_algorithms.hpp:244-247 | Exchanging i with its larger child moves the defect of the heap down to that child. |
| HeapSorting.SiftStop | inc/sorting_algorithms.hpp:244 | A node at least its children needs no exchange, and the heap holds. |
| HeapSorting.ExtractStep | inc/sorting_algorithms.hpp:221-223 | After the root is exchanged with cell i, cells i.. are sorted and bound the heap before them. |
| HeapSorting.ExtractSifted | inc/sorting_algorithms.hpp:224 | Sifting the new root restores the extraction invariant one cell lower. |
| Sorting.Index | inc/sorting_algorithms.hpp:14-23 | Each routine has a bit position below six. |
| Sorting.FromIndex | inc/sorting_algorithms.hpp:47-58 | Each position below six names the routine at that index of `algorithm_names` and `functions`. |
| Sorting.Name | inc/sorting_algorithms.hpp:47-49 | Every entry of `algorithm_names` has between 1 and 9 characters. |
| Sorting.IndexRoundTrip | inc/sorting_algorithms.hpp:14-23 | Positions and routines correspond one to one. |
| Sorting.NamesDistinct | inc/sorting_algorithms.hpp:47-49 | No two routines share a name. |
| Sorting.Bit | inc/sorting_algorithms.hpp:15-20 | The enumerator of a routine is `1L << position`. |
| Sorting.MaskSelects | inc/algorithm_base.hpp:308 | A selection built by `\|` of enumerators reads back its flags bit by bit. |
| Sorting.SelectedBit | inc/algorithm_base.hpp:308 | `algorithm_select[i]`, read bit by bit, is bit i of the selection: the selection divided by 2^i is odd. |
| Sorting.Mask | inc/sorting_algorithms.hpp:14-23 | A selection of k flags is below 2^k. |
| Sorting.BitSelectsOnlyItself | inc/sorting_algorithms.hpp:15-20 | An enumerator selects its own bit and no other. |
| Sorting.LowBits | inc/sorting_algorithms.hpp:22 | 2^k - 1 selects exactly the bits below k. |
| Sorting.AllSelectsEvery | inc/sorting_algorithms.hpp:22 | `all` selects the six routines and nothing beyond them. |
| Sorting.AllIsMask | inc/sorting_algorithms.hpp:22 | `all` is the selection of six true flags. |
| Sorting.SelectedBelowExactly | inc/algorithm_base.hpp:307-311 | The loop of `compare_impl` visits exactly the selected positions, in ascending order. |
| Sorting.SelectedBelow | inc/algorithm_base.hpp:307-311 | The positions visited below n are at most n in number, and each is below n. |
| Sorting.SelectedStep | inc/algorithm_base.hpp:308-310 | One more position adds a row exactly when its bit is set. |
| Sorting.SelectAll | inc/sorting_algorithms.hpp:39-44 | The default selection `all` visits the six routines in order. |
| Sorting.SelectOne | inc/algorithm_base.hpp:307-311 | A single enumerator visits its routine alone. |
| Sorting.Run | inc/sorting_algorithms.hpp:51-58 | Every entry of `functions` leaves the buffer sorted and a permutation of the input, and only adds to both counters. For selection, bubble, merge and insertion it adds exactly that routine's deltas. |
| Text.Digit | inc/algorithm_base.hpp:186 | A digit character stands for its value. |
| Text.IntToString | inc/algorithm_base.hpp:186 | `std::to_string` of a non-negative number is its decimal string. |
| Text.NatToStringDigits | inc/algorithm_base.hpp:186 | The decimal string is non-empty and all digits, has no leading zero, and reads back as the number. |
| Text.Readable | inc/algorithm_base.hpp:184-194 | The insertion loop, as written, yields the `Grouped` form of `std::to_string(number)`, which for n >= 0 is `ReadableNumber(n)`. |
| Text.MarkedIsGrouped | inc/algorithm_base.hpp:188-192 | Walking from the end and inserting after every third cell is the grouping counted from the right. |
| Text.Grouped | inc/algorithm_base.hpp:184-194 | Grouping never shortens a string. Up to three characters are left unchanged, and a longer string always gains a separator. Where each `'` goes is `Text.GroupedQuotes`. |
| Text.UnquoteGrouped | inc/algorithm_base.hpp:184-194 | Removing the `'`s from a grouped digit string gives the digits back. |
| Text.GroupedQuotes | inc/algorithm_base.hpp:189 | In a grouped digit string a `'` sits exactly at each position k > 0 that lies a multiple of four from the end. |
| Text.ReadableNumberProperties | inc/algorithm_base.hpp:184-194 | For n >= 0, deleting every `'` gives the decimal string of n. No `'` leads, and one precedes each group of three from the right. |
| Text.ReadableNumberShortFixture | inc/algorithm_base.hpp:184-194 | `readable(999) == "999"`. |
| Text.ReadableNumberLongFixture | inc/algorithm_base.hpp:184-194 | `readable(1234567) == "1'234'567"`. |
| Text.ReadableNegativeFixture | inc/algorithm_comparison_table.hpp:113-124 | As written, -123456 becomes `-'123'456`: the sign counts as a cell. |
| Text.ReadableInt | inc/algorithm_comparison_table.hpp:113-124 | The corrected grouping: removing the `'`s gives `std::to_string(n)`, non-negative numbers are unchanged, and a minus sign is never followed by `'`. It writes the same text as `ReadableNumber`, `readable` as written, on every non-negative value, which are the only sizes and counts `ComparisonTable.RowStrings` is given. |
| Text.Spaces | inc/algorithm_base.hpp:255-261 | n spaces, or none when n is negative. |
| Text.Repeat | inc/algorithm_base.hpp:286-292 | `std::string(n, c)` is n copies of c. |
| Text.PadLeft | inc/algorithm_base.hpp:261 | Right alignment to a width pads on the left up to the width, or keeps a longer string. |
| Text.PadRight | inc/algorithm_base.hpp:255 | Left alignment pads on the right in the same way. |
| Text.SplitTotal | inc/algorithm_base.hpp:226-239 | For d >= 0 the fields of `readable(us)` satisfy min·60 000 000 + s·1 000 000 + ms·1 000 + us == d, with s < 60, ms < 1000 and us < 1000. |
| Text.SplitUnique | inc/algorithm_comparison_table.hpp:213-227 | In-range fields that add up to a duration are its split, so the decomposition is unique. |
| Text.DurationText | inc/algorithm_base.hpp:233-238 | The four right-aligned fields with their units take at least 20 characters. |
| Centering.FromString | inc/algorithm_utility.hpp:78-81 | The constructor keeps a `std::string` argument unchanged. |
| Centering.FromNumber | inc/algorithm_utility.hpp:82-83 | The constructor keeps `std::to_string` of an integer, which for n >= 0 is its decimal digits. |
| Centering.Write | inc/algorithm_utility.hpp:92-99 | `operator<<` throws `std::length_error` exactly when the string is longer than the width. |
| Centering.WriteLayout | inc/algorithm_utility.hpp:96-97 | For `\|str\| <= width` exactly `width` characters are written. The right padding is ⌊(width - \|str\|)/2⌋ and the left padding is the rest, so the left side has at most one more space. |
| Centering.WriteKeepsString | inc/algorithm_utility.hpp:97 | Only spaces are added around the string. |
| Layout.HorizontalLineShape | inc/algorithm_base.hpp:284-293 | `table_horizontal_line(c)` is 144 characters: c at the eight column boundaries, runs of 13, 16, 14, 21, 21, 25 and 25 dashes between them, then a newline. |
| Layout.HorizontalLine | inc/algorithm_base.hpp:284-293 | A horizontal line is one 144-character table line that starts and ends with its separator character, followed by a newline. `horizontal_line` at inc/algorithm_comparison_table.hpp:193-206 writes the same line. |
| Layout.RowLine | inc/algorithm_base.hpp:324-331 | A row line is the seven cells together plus eight `\|` separators and a newline. It starts with `\|` and ends with `\|` and a newline. |
| Layout.RowLineLength | inc/algorithm_base.hpp:324-331 | Seven full-width cells between `\|` separators, and a newline, make one table line. |
| Stats.Ascending | inc/algorithm_base.hpp:352 | The sorted durations have the same length as the input. |
| Stats.AscendingSorted | inc/algorithm_base.hpp:352 | `std::sort` leaves `time_vec` ascending and a permutation of the trials. |
| Stats.Median | inc/algorithm_base.hpp:353 | The median is one of the trial durations. |
| Stats.MedianRank | inc/algorithm_base.hpp:352-353 | In the sorted trials every duration before index n/2 is at most the median and every duration after it is at least the median. With one trial the median is that trial. |
| Stats.Mean | inc/algorithm_base.hpp:354-356 | The truncated mean times n lies within n of the sum, from below. |
| Stats.MeanNonNegative | inc/algorithm_base.hpp:354-356 | Durations with a non-negative sum have a non-negative mean. |
| Stats.SumNonNegative | inc/algorithm_base.hpp:355 | Non-negative durations have a non-negative sum. |
| Stats.SumPermutation | inc/algorithm_base.hpp:352-355 | Reordering the durations keeps their sum. |
| Stats.MeanAscending | inc/algorithm_base.hpp:352-356 | Averaging the sorted buffer gives the mean of the trials in the order they ran. |
| AlgorithmBase.CheckArguments | inc/algorithm_base.hpp:210-223 | Passes if and only if both counts are positive. The input size is checked first, with its own message, and the test count otherwise. |
| AlgorithmBase.TableColumn | inc/algorithm_base.hpp:241-265 | Throws the table-size message exactly when `\|str\| + 2` exceeds the column width. Otherwise the cell is exactly as wide as the column. |
| AlgorithmBase.TableColumnContents | inc/algorithm_base.hpp:252-264 | A written cell holds the string at its offset with at least one space on either side and only spaces around it. The centred offset is the left padding of `center`. |
| AlgorithmBase.TitleRow | inc/algorithm_base.hpp:272-279 | The row of centred titles is one table line. |
| AlgorithmBase.TableTitle | inc/algorithm_base.hpp:267-281 | `table_title` is two table lines, the first a '+' line. It never throws. |
| AlgorithmBase.ResultRowFits | inc/algorithm_base.hpp:323-331 | A row is written if and only if each of its seven strings leaves a space on both sides within its column; otherwise the table-size message is thrown. |
| AlgorithmBase.ResultRow | inc/algorithm_base.hpp:323-332 | A row that does not fit throws the table-size message. A written row is two table lines, the first a '\|' line. |
| AlgorithmBase.RowText | inc/algorithm_base.hpp:316-333 | `table_row` writes its row if and only if the name has at most 11 characters, the grouped size 14, the grouped test count 12, each grouped counter 19 and each duration 23. Otherwise it throws the table-size message. |
| AlgorithmBase.Trials | inc/algorithm_base.hpp:344-351 | The first n trial durations, in the order they were measured. |
| AlgorithmBase.SummariesNonNegative | inc/algorithm_base.hpp:352-356 | The median and the mean of measured durations are durations. |
| AlgorithmBase.Generated | inc/algorithm_base.hpp:43-45 | The input of the size constructor is n calls of the generator, in order. |
| AlgorithmBase.Harness.constructor | inc/algorithm_base.hpp:28-32 | The member initialisation copies the container, keeps the test count, and sets the input size to the container's length. |
| AlgorithmBase.Harness.FromContainer | inc/algorithm_base.hpp:28-34 | Fails exactly when `check_argumants` fails, with its error. On success `vec` is the container, the size is its length, and both counts are positive. |
| AlgorithmBase.Harness.FromSize | inc/algorithm_base.hpp:36-46 | Fails exactly when `check_argumants` fails. On success `vec` is n generated values, `inputSize == n`, and both counts are positive. |
| AlgorithmBase.Harness.Default | inc/algorithm_base.hpp:20-24 | The default constructor always succeeds with 5000 generated inputs and 21 tests. |
| AlgorithmBase.Harness.SetTestCount | inc/algorithm_base.hpp:98-102 | Assigns the test count and then checks it. The input is unchanged and the invariant holds either way. |
| AlgorithmBase.Harness.SetContainer | inc/algorithm_base.hpp:106-112 | Assigns the container, its size and the test count first, and only then checks them. A failure therefore leaves the new values in place. |
| AlgorithmBase.Harness.Assign | inc/algorithm_base.hpp:92-96 | `operator=` is `set` with the default test count. |
| AlgorithmBase.Harness.SetSize | inc/algorithm_base.hpp:114-125 | Checks first: a failure leaves input, size and test count unchanged. On success the input is n generated values with `inputSize == n`. |
| AlgorithmBase.Harness.PerformTest | inc/algorithm_base.hpp:338-360 | The median is `sorted(t)[n/2]` and the average the truncated mean of the trial durations. The counters are the totals divided by n, which for the exactly counted routines gives one call's deltas. `time_vec` ends empty and `vec` is unchanged. |
| AlgorithmBase.Harness.Measure | inc/algorithm_base.hpp:342-351 | The counters start at zero. Each of the n trials sorts a fresh copy of `vec`, so for the exactly counted routines the totals are n times one call's deltas, and `time_vec` holds the n durations in order. |
| AlgorithmBase.Harness.Summarise | inc/algorithm_base.hpp:352-357 | Sorting `time_vec` and reading index n/2 and the truncated mean gives the median and mean of the trials, and `time_vec` is cleared. |
| AlgorithmBase.Trial | inc/algorithm_base.hpp:345-347 | One trial on a fresh copy of the input only adds to the counters, by exactly one call's deltas for the exactly counted routines. |
| AlgorithmBase.Summaries | inc/algorithm_base.hpp:352-356 | The truncated sum of the sorted buffer is the mean of the trials in measured order, because sorting keeps the sum. Its median conjunct only names `Median` for `Summarise`. |
| AlgorithmBase.SharesBack | inc/algorithm_base.hpp:358 | Dividing n equal totals by n gives back one call's deltas. |
| AlgorithmBase.Harness.TableRow | inc/algorithm_base.hpp:316-333 | `table_row` writes the row of the name, the readable size, test count and counters, and the two durations of `perform_test`. For the exactly counted routines the counters are one call's deltas. |
| AlgorithmBase.Harness.AppendRow | inc/algorithm_base.hpp:309 | The row of the routine at a position is appended to the table, or its table-size exception ends the table. |
| AlgorithmBase.Harness.Visit | inc/algorithm_base.hpp:307-311 | One loop pass adds the row of a selected routine, or throws, and adds nothing for an unselected one. |
| AlgorithmBase.Harness.VisitSelected | inc/algorithm_base.hpp:308-310 | A selected routine has its row measured and appended, or thrown. |
| AlgorithmBase.Harness.Compare | inc/algorithm_base.hpp:299-314 | On success the output is the title, then, for each set bit in ascending order, that routine's row, then a closing '+' line; unselected routines contribute nothing. Otherwise the first row that does not fit ends it with the table-size exception. |
| AlgorithmBase.WrittenPush | inc/algorithm_base.hpp:309 | A written row adds its text to the table. |
| AlgorithmBase.RowsPush | inc/algorithm_base.hpp:308-310 | Visiting one more routine adds its row to the record of rows. |
| AlgorithmBase.PushStopped | inc/algorithm_base.hpp:309 | A row that does not fit stops the table with the rows so far. |
| AlgorithmBase.PushWritten | inc/algorithm_base.hpp:309 | A row that fits extends the table to cover one more position. |
| AlgorithmBase.RowsToEnd | inc/algorithm_base.hpp:307-311 | The checked rows so far, extended by the row of a selected position, are still checked against the selection up to any later bound. |
| ComparisonTable.Column | inc/algorithm_comparison_table.hpp:174-191 | Throws the table-size message exactly when `\|str\| + 2 > width`. Otherwise the result is exactly `width` long. |
| ComparisonTable.ColumnContents | inc/algorithm_comparison_table.hpp:184-190 | With left alignment the cell is `" " + str` padded to the width. With right alignment it is `str + " "` padded on the left. When centred, the spaces on either side differ by at most one, the extra one on the right. Only spaces surround the string. |
| ComparisonTable.ColumnAgreesWithHarness | inc/algorithm_comparison_table.hpp:174-191 | The two writers' cells coincide for left and right alignment, and for centring when the free space is even. |
| ComparisonTable.ColumnDiffersFromHarness | inc/algorithm_comparison_table.hpp:190 | With odd free space the two centred cells differ for any string that is not all spaces. |
| ComparisonTable.TitleRow | inc/algorithm_comparison_table.hpp:58-74 | The row of centred titles is one table line. |
| ComparisonTable.RowStrings | inc/algorithm_comparison_table.hpp:84-108 | A row is made of seven cell strings. The first is the name. The size and test count cells are what `readable` writes as it stands, and with the `'`s removed they read back as the decimal size and count. The two counter cells read back the same way. The last two are durations of at least 20 characters. |
| ComparisonTable.RowCells | inc/algorithm_comparison_table.hpp:94-110 | A row that does not fit throws the table-size message. |
| ComparisonTable.Cells | inc/algorithm_comparison_table.hpp:94-110 | Seven cells that fit make one table line. A cell that does not fit throws the table-size message. |
| ComparisonTable.CellsFit | inc/algorithm_comparison_table.hpp:94-110 | Seven cells are written if and only if each string leaves a space on both sides within its column, and then they make one table line. |
| ComparisonTable.RowCellsFit | inc/algorithm_comparison_table.hpp:82-111 | A row is written if and only if each of its strings fits its column, and then it is one table line. |
| ComparisonTable.Table.constructor | inc/algorithm_comparison_table.hpp:53 | A new table is empty. |
| ComparisonTable.Table.AddTableSeparatorLine | inc/algorithm_comparison_table.hpp:77-80 | Appends one '+' line and keeps the table a whole number of lines. |
| ComparisonTable.Table.AddRowSeparatorLine | inc/algorithm_comparison_table.hpp:208-211 | Appends one '\|' line and keeps the table a whole number of lines. |
| ComparisonTable.Table.AddTitle | inc/algorithm_comparison_table.hpp:55-75 | Appends a '+' line and the title row, and nothing else. |
| ComparisonTable.Table.AddRow | inc/algorithm_comparison_table.hpp:82-111 | Appends a '\|' line and the row. When a cell does not fit, the exception is thrown after the '\|' line has been appended, so that line stays in the table. |
| ComparisonTable.TitlesDiffer | inc/algorithm_comparison_table.hpp:66 | The two writers' title rows differ: "# of comparisons" leaves an odd five spaces in its column of 21. |
| ComparisonTable.TitleRowsDiffer | inc/algorithm_comparison_table.hpp:58-74 | Title rows differ once the fourth title, not starting with a space, leaves an odd amount of free space. |
| ComparisonTable.SameRowsFit | inc/algorithm_comparison_table.hpp:82-111 | For non-negative sizes and counts, which are all the harness produces, the two writers accept exactly the same rows. |

## Left out

- Counters and sizes are unbounded integers. The `std::uint64_t` counters' wrap-around and the `std::int64_t` sizes are not modelled. Neither is the narrowing of a `std::uint64_t` count to `std::int64_t` when it is passed to `readable`.
- `QuickSorting.QuickSort`: the counter deltas are bounded, not given in closed form. The comparison delta is only shown to grow, and the assignment delta to be twice it plus an even amount between 2 and 2(n - 1). This is because the exact count depends on every pivot chosen on the way.
- `HeapSorting.HeapSort`: the deltas are bounded, not given in closed form. The assignment delta is exactly 2n plus two per sift exchange, and each exchange costs one or two comparisons. This is because the exact number of sift exchanges depends on the data.
- `Sorting.Run`: closed-form deltas are stated only for selection, bubble, merge and insertion, for the reasons given for quick and heap sort above.
- AlgorithmBase.Harness.PerformTest: it, and `Measure`, `Summarise`, `TableRow`, `AppendRow`, `Visit` and `VisitSelected`, require a positive test count. The model can still reach a state with a count of 0 or below. `SetTestCount` and `SetContainer` assign before they check (inc/algorithm_base.hpp:98-112), so a caught failure leaves `Valid()` true with that count. For such a count the source behaves in two ways the model does not show:
  - A negative count converts to a huge `size_t` in `time_vec.reserve(m_test_count)` (inc/algorithm_base.hpp:343), which throws `std::length_error`.
  - A zero count reads `time_vec[0]` of an empty vector and divides by zero (inc/algorithm_base.hpp:353-358), which is undefined behaviour.
- AlgorithmBase.Harness.Compare: for the same reason it requires a positive test count. It does not model `compare` after a caught setter failure. With a count of 0 or below, the first selected routine gives the `std::length_error` or the undefined behaviour described for `PerformTest`. An empty selection gives the title and the closing line, because `perform_test` is never called.
- `AlgorithmBase.Harness.PerformTest`: the mean is integer division of the sum of the durations. The source accumulates in `double` and truncates. Floating-point rounding is not modelled.
- The two report writers centre cells by two different rules.
  - The `fmt` library's centring is modelled as half the free space, rounded down, on the left.
  - `center` leaves the larger half on the left.
  - `fmt`'s other internals are not modelled.
- `readable(std::chrono::microseconds)` is modelled for non-negative durations only. A negative duration is not modelled, since the clock is monotonic.
- The clock is left out. `steady_clock` readings are a parameter `elapsed(x, i)`, the duration of trial i of routine x.
- The random generator is left out. `generate_random_numbers` is a parameter `random(k)`, the k-th generated value; `mt19937_64` and its time-based seed are not modelled.
- File I/O is not modelled: the file constructor, `set(filename, …)` and `generate_input_files`.
- These members are not modelled: the getters `get_test_count`, `get_input_size` and `get_inputs`, `get_table`, and both `operator<<` that write a table to a stream. All but `get_table` only read the fields. `get_table() &` returns a mutable reference to `m_table`, so a caller can rewrite or truncate the table. The model's table is changed only by the `add_*` methods, and `Table.Valid()`, that the table is whole lines, holds only for a table changed that way.
- Centering.FromNumber: only integral arguments are modelled. `is_arithmetic` also admits floating-point types, whose `std::to_string` writes six decimals (`2.5` gives `"2.500000"`); that branch is not modelled. The last branch, `std::string{str}` for other types such as `const char*`, is not modelled either. The core only ever centres `std::string` values.
- `center::operator>>` is not modelled. It never reads anything and nothing uses it.
- The type traits and concepts are not modelled: `is_char`, `algorithm_value_type`, `algorithm_container` and `algorithm_concepts.hpp`. `ValueType` is fixed to `int`.
- The command-line front end is not part of this model: `main.hpp` and `main.cpp`.
- `perform_test`'s `static std::vector time_vec` is modelled as the field `timeVec` of the harness object. The static lifetime shared between objects is not modelled; the vector is empty between calls in either case.
- `std::sort` on `time_vec` is given by its result, `Stats.Ascending`, a sorted permutation. Its algorithm is not modelled.
- `std::bad_alloc` from the `reserve` and `push_back` calls is not modelled.
- ComparisonTable.RowStrings: the input size and test count of `test_results_t` are modelled as non-negative, although the source's `std::int64_t` fields accept negative values. The harness only reports positive values. For a negative value `readable` as written would write `-'123'456`, and a cell such as `-'123'456'789` could then exceed its column where the corrected text still fits.
- Strings are modelled as ASCII text, where bytes, characters and display columns count the same. The source measures with `std::ssize` in bytes and pads with `std::setw` by bytes and with `fmt` by display width. For non-ASCII text such as a name `"é"`, the source fits and pads cells differently from the model.
- Behaviour the model takes from the code as it stands:
  - Selection, bubble and quick sort count a comparison only when the tested condition holds, not at every comparison evaluated. Heap sort counts only a child that becomes the new largest.
  - `perform_test` accumulates the counters over all trials and then divides. It does not average per-trial values. For the exactly counted routines the two are equal (`AlgorithmBase.SharesBack`).
  - `add_row` leaves its '\|' separator line in the table when a cell does not fit, so a failed row leaves part of a table behind.
  - Errors are `std::runtime_error` with the source's messages, and `std::length_error` from `center`.

## Findings

| source | as written | input that shows it | evidently intended | confidence | as-written member | corrected member |
|---|---|---|---|---|---|---|
| inc/sorting_algorithms.hpp:203 | `while (key < vec[j] && j >= 0)` reads `vec[j]` before testing `j >= 0`. | Insertion sort of `[2, 1]`: key 1 is smaller than every earlier cell, so the guard reads `vec[-1]`. | Test `j >= 0` first, so the loop stops at the front without reading outside the vector. | not executed | InsertionSorting.ReadsBeforeStart | InsertionSorting.InsertKey |
| inc/algorithm_comparison_table.hpp:113-124 | `readable` walks `std::to_string(number)` including the minus sign, inserting `'` after every three cells from the right. | `-123456` gives `-'123'456`. | Group the digits of the magnitude and put the sign in front: `-123'456`. | not executed | Text.ReadableNegativeFixture | Text.ReadableInt |
