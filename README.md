# Sorting visualiser: a verified model of its core

The visualiser animates five comparison sorts over an array of bars and keeps
two running totals, comparisons and swaps. This project models, in Dafny:

- the five sorts as they run on the working copy of the array. Each performs
  the same comparisons and exchanges, in the same order, as `script.js`, and
  advances the totals at the same points through `updateStats`;
- the playback flags `isSorting`, `isPaused` and `shouldStop`, and what
  `startSorting`, `togglePause`, `stopSorting`, `completeSorting` and
  `resetState` do to them and to the totals;
- the value rule of `generateNewArray`: bar i is `floor(draw_i * 100) + 5`.

Layout:

- `SortSpec.dfy`: shared vocabulary. It defines sortedness, the pair count
  `Pairs(n)` (n(n-1)/2), inversions, and the exchange of two positions.
- `BubbleModel.dfy`, `SelectionModel.dfy`, `InsertionModel.dfy`,
  `MergeModel.dfy`, `QuickModel.dfy`: functional references for the sorts.
  Bubble sort's passes, insertion sort's shifts, the merge, and the quick
  sort partition are each written step for step like the source's loop,
  together with the counts that loop makes. Selection sort's inner scan is
  characterised by `SelectionModel.FirstMin`, the first minimum position of
  the unsorted suffix. That function recurses from the right end and does
  not retrace the scan's comparisons; `FirstMinIsFirstMin` and
  `FirstMinUnique` show it picks the same position the scan picks. Quick
  sort's recursion has no reference function. It is specified by its
  properties: the segment ends sorted, keeps its elements, nothing outside it
  moves, and its counts are bounded. Lemmas prove that each reference
  returns a sorted permutation, and bound or determine its counts.
- `Sorts.dfy`: the sorts as imperative methods over an `array<int>`, plus a
  `Stats` object holding the two totals. Every loop is proved against its
  reference function. Each method's contract therefore gives the exact array
  and exact counts, with two exceptions. `QuickSort` bounds its totals
  rather than giving them, and `Controls.Visualizer.RunSorting` leaves the
  totals out.
- `Controls.dfy`: the flag transitions as functions with their lemmas, and a
  `Visualizer` class. Its fields are the source's globals and its methods
  the control handlers.

What is proved, in short:

- every sort leaves a sorted permutation of its input;
- bubble and selection sort compare exactly n(n-1)/2 times;
- bubble sort swaps, and insertion sort shifts, exactly once per inversion of
  the input;
- insertion sort compares n - 1 times plus once per inversion;
- merge sort counts at most n(n-1)/2 comparisons, and no more right picks
  than comparisons;
- quick sort's comparisons and swaps are bounded by the values they take on
  a strictly ascending segment, and on such a segment they equal those
  values exactly;
- all five algorithms end with the same array, the only sorted permutation
  of the input;
- every control keeps the flags consistent, and on consistent flags
  generation is refused exactly while a run is in progress;
- generated bars lie in [5, 104].

Bubble sort on `[5, 3, 8, 1]` passes through the states `[3, 5, 8, 1]`,
`[3, 5, 1, 8]`, `[3, 1, 5, 8]` and `[1, 3, 5, 8]`, which is four exchanges.
The code counts one swap for each exchange. `BubbleModel.FourElementRun`
proves that this run ends sorted, after 6 comparisons and 4 swaps.

## Model

| member | source | states |
|---|---|---|
| Sorts.Stats.UpdateStats | script.js:323-325 | adds the given amounts to the comparison and swap totals |
| Sorts.Exchange | script.js:378 | the destructuring exchange swaps exactly positions i and j |
| Sorts.BubblePass | script.js:371-383 | one pass equals the reference pass: bound - 1 comparisons, one swap per out-of-order pair |
| Sorts.BubbleSort | script.js:366-387 | the array ends sorted and a permutation of the input; comparisons grow by exactly n(n-1)/2 and swaps by exactly the inversions of the input |
| BubbleModel.CompareExchangeCounts | script.js:377-381 | one comparison keeps the elements and removes one inversion exactly when it exchanges |
| BubbleModel.PassFromSorts | script.js:371-383 | a pass moves the maximum of the unsorted prefix to its end, growing the sorted, separated tail by one |
| BubbleModel.PassFromCounts | script.js:371-383 | a pass permutes the array, and its exchanges equal the inversions it removes |
| BubbleModel.PassesFromKeepsTail | script.js:370-371 | later passes never touch the last i positions, which already hold their final values |
| BubbleModel.PassesFromFacts | script.js:370-385 | the remaining passes sort and permute, with exactly as many exchanges as inversions |
| BubbleModel.BubbleSortSortedPermutation | script.js:366-387 | the reference bubble sort returns a sorted permutation of its input |
| BubbleModel.BubbleSwapsAreInversions | script.js:377-381 | the reference bubble sort exchanges exactly once per inversion |
| BubbleModel.FourElementRun | script.js:366-387 | on [5, 3, 8, 1] bubble sort ends in [1, 3, 5, 8] after 6 comparisons and 4 exchanges |
| Sorts.FindMin | script.js:394-405 | returns the first position of the minimum of a[i..] under the strict `<` scan, with one comparison per remaining position |
| Sorts.SelectPosition | script.js:393-412 | exchanges the first minimum into position i, counting one swap only when it was elsewhere |
| Sorts.SelectionSort | script.js:389-417 | the array ends sorted and a permutation of the input; comparisons grow by exactly n(n-1)/2 and swaps by the reference count |
| SelectionModel.FirstMinIsFirstMin | script.js:394-405 | the scan's result is a minimum of a[i..] and every earlier candidate is strictly larger |
| SelectionModel.FirstMinUnique | script.js:394-405 | that characterisation determines the position uniquely |
| SelectionModel.SelectionSwapsBound | script.js:407-412 | selection sort swaps at most n - 1 times |
| SelectionModel.SortedNeedsNoSelectionSwaps | script.js:407-412 | on a sorted input selection sort never swaps |
| SelectionModel.SelectionStateKeepsPrefix | script.js:393-415 | later iterations never touch the first i positions, which hold their final values |
| SelectionModel.SelectionSortSortedPermutation | script.js:389-417 | the reference selection sort returns a sorted permutation of its input |
| Sorts.Insert | script.js:423-441 | one outer iteration equals the reference insertion of a[i]: one comparison, then one comparison and one swap per shifted element |
| Sorts.InsertionSort | script.js:419-448 | the array ends sorted and a permutation of the input; swaps grow by the inversions of the input and comparisons by n - 1 plus those inversions |
| InsertionModel.ShiftInsertPermutes | script.js:430-440 | the inner loop and the final placement keep the elements |
| InsertionModel.ShiftInsertInversions | script.js:430-440 | each shift removes exactly one inversion |
| InsertionModel.ShiftInsertSorts | script.js:430-440 | inserting the key into a sorted prefix leaves the prefix one longer and sorted |
| InsertionModel.InsertionFromSorts | script.js:423-442 | the outer loop sorts the whole array |
| InsertionModel.InsertionSortFacts | script.js:419-448 | the reference insertion sort returns a sorted permutation and shifts exactly once per inversion |
| Sorts.Merge | script.js:471-498 | the merge loop equals the reference merge: one comparison per iteration, one swap per right-hand pick, leftovers appended |
| MergeModel.MergePermutation | script.js:471-498 | a merge has the elements of both runs |
| MergeModel.MergeSorted | script.js:471-498 | merging two sorted runs gives a sorted run |
| MergeModel.MergeAdvance | script.js:477-491 | step lemma for the merge loop: unfolding the reference merge by one iteration takes the left head only when it is strictly smaller, and counts accordingly |
| MergeModel.MergeRest | script.js:494 | step lemma for the end of the merge loop: once one run is exhausted, the reference merge appends the rest with no further counts |
| MergeModel.MergeCountBounds | script.js:477-491 | right picks never exceed comparisons; on two non-empty runs the comparisons are at least the shorter run's length and at most the total length minus one |
| Sorts.MergeSort | script.js:450-469 | returns the reference merge sort of its argument, sorted and a permutation; runs of length at most one come back unchanged; the totals grow by the reference counts |
| MergeModel.MergeSortSortedPermutation | script.js:450-469 | the reference merge sort returns a sorted permutation of the same length |
| MergeModel.SortCountBounds | script.js:450-498 | a merge sort makes at most n(n-1)/2 comparisons and no more right picks than comparisons |
| Sorts.Partition | script.js:519-545 | the array and the returned index are exactly those of the reference partition QuickModel.Partition; the pivot a[high] lands at p = low plus the number of segment elements strictly below it; everything before p is smaller and nothing after it is; nothing outside the segment moves; high - low comparisons and p - low + 1 swaps; a strictly ascending segment is left unchanged with p = high |
| QuickModel.ScanThenPivot | script.js:526-539 | step lemma for the end of the partition loop: the scan over the whole segment followed by the pivot exchange is the reference partition |
| QuickModel.PartitionSpec | script.js:519-545 | the reference partition has the properties listed for Sorts.Partition |
| QuickModel.ScanFromSplits | script.js:526-537 | the scan keeps the elements before the boundary strictly below the pivot and the scanned rest at least the pivot |
| QuickModel.ScanFromCount | script.js:526-537 | the boundary advances once per scanned element strictly below the pivot |
| QuickModel.ScanFromPermutes | script.js:526-537 | the scan's exchanges keep the elements |
| QuickModel.PartitionIncreasing | script.js:519-545 | on a strictly ascending segment every exchange is of a position with itself and the pivot stays at high |
| QuickModel.CountBelowAll | script.js:530 | every element is below the pivot exactly when the count of such elements is the segment's length |
| Sorts.QuickSort | script.js:500-517 | the segment ends sorted and a permutation, nothing outside it moves; comparisons are at most n(n-1)/2 and swaps at most the ascending count; on a strictly ascending segment the array is unchanged and both totals are met exactly |
| QuickModel.QuickJoin | script.js:500-507 | sorting both sides of a placed pivot sorts the whole segment |
| QuickModel.QuickCounts | script.js:500-507 | the partition's counts plus the two recursive bounds stay within the bounds for the whole segment |
| QuickModel.QuickAscending | script.js:500-507 | on a strictly ascending segment the recursion goes one element shorter each time and meets both bounds exactly |
| SortSpec.PairsClosedForm | script.js:370-371 | the pair count is n(n-1)/2 |
| SortSpec.InversionsBound | script.js:377-381 | an array has at most n(n-1)/2 inversions |
| SortSpec.InversionsSwapAdj | script.js:377-378 | exchanging an out-of-order neighbouring pair removes exactly one inversion |
| SortSpec.SortedIffNoInversions | script.js:366-448 | an array is sorted exactly when it has no inversions |
| SortSpec.SortedPermutationUnique | script.js:184-200 | two sorted permutations of the same elements are equal |
| Controls.SortsAgree | script.js:184-200 | every algorithm the selector offers ends with the same array |
| Controls.Started | script.js:174-179 | from consistent flags, after a start a run is in progress and generation is refused; the pause flag is never changed |
| Controls.Toggled | script.js:210-220 | pause flips the pause flag during a run and does nothing otherwise; the restart asked for on resume is refused |
| Controls.Stopped | script.js:222-227 | after a stop nothing runs and generation is accepted; a stop is pending exactly when one was requested during a run or was already pending |
| Controls.Completed | script.js:335-337 | whatever the flags were, completion leaves them consistent with generation accepted, and keeps a pending stop |
| Controls.InitialConsistent | script.js:21-29 | the initial flags are consistent and generation is accepted |
| Controls.ControlsKeepConsistent | script.js:174-237 | start, pause, stop and completion all keep the flags consistent |
| Controls.GenerateRefusedIffSorting | script.js:103 | on consistent flags generation is refused exactly during a run |
| Controls.TogglePauseTwice | script.js:210-220 | pausing twice restores the flags |
| Controls.StartStopIdempotent | script.js:174-175 | a second start or a second stop changes nothing |
| Controls.StopThenStart | script.js:174-227 | after a stop nothing runs, generation is accepted, pausing does nothing, and a start begins a fresh run |
| Controls.BarValue | script.js:109 | one draw in [0, 1) gives a bar between 5 and 104 |
| Controls.BarsAreValues | script.js:107-110 | bar i is the value of draw i, so every bar lies in [5, 104] |
| Controls.Visualizer.constructor | script.js:18-29 | no run, no pause, no stop, empty array, zero totals |
| Controls.Visualizer.ResetState | script.js:239-245 | both totals become zero |
| Controls.Visualizer.StartSorting | script.js:174-182 | keeps the flags consistent; the flags follow Started; totals are zeroed only when a run begins |
| Controls.Visualizer.RunSorting | script.js:184-206 | the selected sort runs on a copy; the array shown ends sorted and a permutation of the one before; the completion callback leaves the flags as Completed gives them |
| Controls.Visualizer.TogglePause | script.js:210-220 | keeps the flags consistent; the flags follow Toggled; the array and the totals are unchanged |
| Controls.Visualizer.StopSorting | script.js:222-237 | keeps the flags consistent; the flags follow Stopped; the array is unchanged |
| Controls.Visualizer.CompleteSorting | script.js:335-345 | keeps the flags consistent; the flags follow Completed; the array is unchanged |
| Controls.Visualizer.GenerateNewArray | script.js:102-113 | keeps the flags consistent; refused during a run not being stopped; otherwise the totals are zero and the array holds arraySize bars, bar i the value of draw i, each in [5, 104] |

## Left out

- Rendering, highlighting, sorted and pivot marks (`renderArray`, `highlightBars`, `markSorted`, `markPivot`, `toggleButtons`), the theme, the sliders and the algorithm description: these are display only.
- `updateArray`'s pacing, the pause polling loop and the animation delay. These govern timing only, and the sorts are modelled as running from start to end without interruption.
- The abort paths: every `if (shouldStop) return`, the exception `updateArray` throws once a stop is pending, and the `[]` that merge sort returns when aborted. So the model does not capture what a stop does to `array`: it keeps the last frame drawn before the stop. During merge sort that frame can be a sub-array shorter than `arraySize` (the first merge of `[5, 3, 8, 1]` draws `[5, 3]`), and the next start then sorts that shorter array. A stop that arrives while a run is suspended cannot be expressed in a sequential model, so `Controls.Visualizer.RunSorting` covers only an uninterrupted run. `StopSorting` is still modelled as a transition on the flags.
- The race in which a stopped run's pending promise finishes after a new start has begun. It needs the event loop, which is not modelled.
- `performance.now()`, the start time and the elapsed-time display that `updateStats` refreshes: the clock is not modelled.
- `Math.random()` is a parameter. `GenerateNewArray` takes the draws as reals in [0, 1), so IEEE double rounding in `draw * 100` is not modelled.
- Merge sort's `startIdx` and `sortedIndices` only position highlights. Every frame it draws through `updateArray`, including the `[...left, ...right]` frames of each merge step, overwrites `array`. The model keeps only the last one. In an uninterrupted run that is the frame of the top-level merge, which holds the whole sorted array, so `Controls.Visualizer.RunSorting` sets `array` to the merge sort's result.
- Sorts.QuickSort: its totals are stated as upper bounds plus the exact ascending case, not as an exact function of the input.
- Controls.Visualizer.RunSorting: it states the sorted permutation and the final flags. The exact totals of each algorithm are stated by the sort method it calls (`Sorts.BubbleSort`, `Sorts.SelectionSort`, `Sorts.InsertionSort`, `Sorts.MergeSort`, `Sorts.QuickSort`), not again here.
- Values are unbounded integers. JavaScript numbers are doubles, but every bar is an integer between 5 and 104, so nothing overflows.
