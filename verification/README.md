# Sorting visualizer engine, modelled in Dafny

The sorting visualizer draws an integer array as bars. Five buttons run one
of five in-place sorts on the array: bubble, selection, insertion, merge and
quick sort. A shared `isSorting` flag guards a run. The bubble, selection
and insertion loops poll the flag and stop early once it is cleared. The
loops of merge and quick sort never poll it; only the `markSortedGradually`
that their top-level call runs at the end does. Clearing the flag is what
the Generate button does when it cancels a run. `generateArray` replaces the array with
fresh random heights, but never while a run is in progress.

This project models that engine in two layers.

- **Pure models** (`sort_basics.dfy`, `bubble.dfy`, `selection.dfy`,
  `insertion.dfy`, `merge.dfy`, `quick.dfy`). Each one follows the source's
  loops step by step, as functions on sequences, and is generic over a key
  function. For example, `Pass` is one inner pass of bubble sort,
  `ScanMin` is the `minIdx` scan, `Insert` is the whole shifting loop of
  one outer iteration of insertion sort followed by the write of the key,
  `MergeBy` is `merge`, and `LomutoScan`/`PartitionBy` is `partition`.
  A generic key makes stability expressible: equal keys keep their relative
  order. Lemmas prove sortedness, permutation and stability. They also prove
  the properties peculiar to each algorithm.
- **The engine** (`engine.dfy`, class `Engine.Visualizer`). The class holds
  the array as an `array<int>` and the `isSorting` flag. Each routine is an
  imperative method with the source's loops and recursion. Loop invariants
  and postconditions tie the array after each method to the pure model of
  the array before it, with the bar heights as their own keys (`Identity`).
  The recursive sorts work on an inclusive index range. Their postconditions
  say that the range is replaced by its sorted version and that every other
  cell keeps its value (`Ranges.Splice`).

Every `await sleep(...)` is a call of `Pause`. A pause is the one point where
other code may run, and the only effect of that code on the engine is to
clear the flag (a cancelled run). Nothing sets the flag during a pause, and
the array is not touched. Whether the user may cancel at all is the field
`mayCancel`, an input fixed when the page is built. Without cancellation
every pause keeps the flag, so bubble, selection and insertion sort then
run to the end.

The random heights of `generateArray` are a parameter. The timing of the
pauses does not matter to the model.

## Model

| member | source | states |
|---|---|---|
| SortBasics.SwapPermutes | script.js:162-163 | the destructuring exchange of two cells keeps the multiset of heights |
| SortBasics.SwapFacts | script.js:196 | the exchange puts each of the two cells in the other's place and leaves the rest alone |
| SortBasics.Swap | script.js:163 | the destructuring exchange of two cells; its contract keeps only the length, and SwapFacts and SwapPermutes state what it does |
| BubbleModel.CompareSwap | script.js:162-164 | after one comparison the left neighbour's key is at most the right one's |
| BubbleModel.Pass | script.js:155-167 | the first j comparisons of a pass; its contract keeps only the length, and PassStep, PassPermutes and PassCarriesMaximum state what it does |
| BubbleModel.PassSwaps | script.js:162-164 | the number of exchanges among the first j comparisons of a pass: at most one per comparison, so at most j |
| BubbleModel.Passes | script.js:154-171 | the first i passes, pass p making n - p - 1 comparisons; its contract keeps only the length, and PassesPermute and PassesBuildSortedSuffix state what it does |
| BubbleModel.SwapsBefore | script.js:154-171 | the exchanges of the first i passes; it has no contract of its own, and SwapsAtMostComparisons bounds it |
| BubbleModel.SwapsAtMostComparisons | script.js:154-171 | the first i passes make at most as many exchanges as comparisons |
| BubbleModel.BubbleSortBy | script.js:151-172 | the whole run of `bubbleSort`; its contract keeps only the length, and BubbleSortSorted, PassesPermute and BubbleSortStable state what it does |
| BubbleModel.PassPermutes | script.js:155-168 | an inner pass, cut off after any number of comparisons, only permutes the array |
| BubbleModel.PassesPermute | script.js:154-171 | the first i passes permute the array |
| BubbleModel.PassCarriesMaximum | script.js:155-168 | after the comparisons up to j, cell j holds a largest key of cells 0..j, and the cells after j are untouched |
| BubbleModel.PassKeepsUpperBound | script.js:155-168 | a bound on the keys of cells 0..j still holds after the pass |
| BubbleModel.PassExtendsSortedSuffix | script.js:155-170 | the pass bounded by m grows the sorted, dominating suffix by one cell, which is why cell n - i - 1 is marked sorted |
| BubbleModel.PassesBuildSortedSuffix | script.js:154-171 | after i passes the last i cells are sorted and no earlier cell has a larger key |
| BubbleModel.BubbleSortSorted | script.js:151-172 | all n - 1 passes leave the array sorted |
| BubbleModel.PassKeepsOrderPerKey | script.js:162 | the strict `>` never exchanges equal keys, so a pass keeps the order of equal keys |
| BubbleModel.PassesKeepOrderPerKey | script.js:154-171 | the passes keep the order of equal keys |
| BubbleModel.BubbleSortStable | script.js:151-172 | bubble sort is stable |
| BubbleModel.PassStep | script.js:158-164 | comparison j of a pass exchanges the neighbours (j, j + 1) when the left is greater, and the exchange count grows by one exactly then |
| BubbleModel.ComparisonsCountPairs | script.js:154-155 | the first i passes make one comparison for each pair of cells not both among the first n - i |
| BubbleModel.PairCountClosedForm | script.js:154-155 | one comparison per pair of cells is n(n - 1)/2 |
| BubbleModel.TotalComparisons | script.js:154-155 | a full run makes exactly n(n - 1)/2 comparisons |
| BubbleModel.PassOnSortedIsIdentity | script.js:162-164 | on a sorted array a pass exchanges nothing and changes nothing |
| BubbleModel.PassesOnSortedIsIdentity | script.js:154-171 | on a sorted array all passes together exchange nothing |
| Engine.BubbleOutcome | script.js:151-172 | any run, cancelled or not, permutes the array and makes no more exchanges than comparisons. A finished run sorts it after n(n - 1)/2 comparisons. A sorted input is left as it is, with no exchange |
| Engine.Visualizer.BubbleSort | script.js:151-172 | the array after `bubbleSort`: always a permutation of the input, sorted (and equal to BubbleSortBy) when not cancelled, unchanged with no exchange on sorted input, never more exchanges than comparisons; a run started with the flag set, on a page without cancellation, finishes |
| Engine.Visualizer.BubblePasses | script.js:154-171 | the outer loop leaves the array as the passes before the stopping point plus the cut pass, with the counted comparisons and exchanges |
| Engine.Visualizer.BubblePass | script.js:155-168 | the inner loop polls the flag before each comparison. It stops with the flag cleared, having made at most n - i - 1 comparisons, and the array is the pass cut off there |
| Engine.Visualizer.CompareNeighbours | script.js:162-166 | the neighbours (j, j + 1) are exchanged exactly when the left one is strictly greater; the array is one comparison of the pass further on and the result says whether they were exchanged |
| SelectionModel.ScanMin | script.js:181-193 | the `minIdx` scan returns an index inside the scanned range |
| SelectionModel.SelectStep | script.js:177-204 | outer iteration i of `selectionSort`; its contract keeps only the length, and SelectStepExtendsPrefix and SelectStepOnSortedIsIdentity state what it does |
| SelectionModel.Selections | script.js:176-205 | the first i outer iterations; its contract keeps only the length, and SelectionsPermute and SelectionsBuildSortedPrefix state what it does |
| SelectionModel.SelectionSortBy | script.js:174-206 | the whole run of `selectionSort`; its contract keeps only the length, and SelectionSortSorted and SelectionsPermute state what it does |
| SelectionModel.ScanMinIsFirstMinimum | script.js:181-193 | `minIdx` holds a least key of cells i..n - 1, and no earlier cell of that range holds one as small (strict `<`) |
| SelectionModel.SelectionsPermute | script.js:176-205 | the first i outer iterations permute the array |
| SelectionModel.SelectStepExtendsPrefix | script.js:181-197 | one outer iteration extends the sorted prefix, whose cells bound the rest from below, by one cell |
| SelectionModel.SelectionsBuildSortedPrefix | script.js:176-205 | after i iterations the first i cells are sorted and at most every later cell |
| SelectionModel.SelectionSortSorted | script.js:174-206 | selection sort leaves the array sorted |
| SelectionModel.SelectStepOnSortedIsIdentity | script.js:195-200 | on sorted input `minIdx` stays i and no exchange happens |
| SelectionModel.SelectionsOnSortedIsIdentity | script.js:176-205 | on sorted input no outer iteration exchanges anything, so selection sort leaves the array as it is |
| SelectionModel.SelectionSortOfSample | script.js:195-197 | on [20, 21, 10] with keys by tens, the first outer iteration exchanges cells 0 and 2, and the other two exchange nothing, leaving [10, 21, 20] |
| SelectionModel.SelectionSortNotStable | script.js:195-197 | the long-distance exchange makes selection sort unstable: 20 and 21 (equal keys) swap order |
| Engine.SelectionOutcome | script.js:174-206 | a run stopped after any outer iteration permutes the array, a finished one sorts it, and a sorted input is left as it is |
| Engine.Visualizer.SelectionSort | script.js:174-206 | the array after `selectionSort`: a permutation, cancelled or not, sorted (SelectionSortBy) when not cancelled, and unchanged on sorted input; a run started with the flag set, on a page without cancellation, finishes |
| Engine.Visualizer.SelectionPasses | script.js:176-205 | the outer loop, stopping before an iteration, leaves the array as the completed iterations |
| Engine.Visualizer.SelectPosition | script.js:177-204 | one outer iteration either stops with the array unchanged, so that a cancelled scan never exchanges, or performs SelectStep |
| Engine.Visualizer.ScanForMinimum | script.js:178-193 | the inner loop finds the first minimum of cells i..n - 1 unless the flag is found cleared |
| InsertionModel.InsertPermutes | script.js:212-227 | placing the key adds exactly the key to the elements |
| InsertionModel.Insert | script.js:218-228 | the shifting loop of one outer iteration plus the write of the key; its contract gives the length, and InsertPermutes, InsertKeepsSorted and InsertLandsAfter state what it does |
| InsertionModel.Insertions | script.js:210-234 | the outer iterations 1 .. i - 1; its contract keeps only the length, and InsertionsBuildSortedPrefix and InsertionsPermute state what it does |
| InsertionModel.InsertionSortBy | script.js:208-235 | the whole run of `insertionSort`; its contract keeps only the length, and InsertionSortSorted and InsertionSortStable state what it does |
| InsertionModel.InsertionsPermute | script.js:210-234 | the first i insertions permute the array |
| InsertionModel.InsertKeepsSorted | script.js:218-227 | inserting into a sorted prefix keeps it sorted |
| InsertionModel.InsertionsBuildSortedPrefix | script.js:210-234 | after inserting cells 1..i - 1 the prefix of length i is a sorted permutation of the input prefix, and later cells are untouched |
| InsertionModel.InsertionStep | script.js:210-234 | one outer iteration grows the sorted prefix by one cell |
| InsertionModel.InsertKeepsOrderPerKey | script.js:218 | the strict `>` stops the shift at an equal key, so the key lands after its equal elements |
| InsertionModel.InsertionsKeepOrderPerKey | script.js:210-234 | the insertions keep the order of equal keys |
| InsertionModel.InsertionSortSorted | script.js:208-235 | insertion sort leaves the array sorted |
| InsertionModel.InsertionSortStable | script.js:208-235 | insertion sort is stable |
| InsertionModel.InsertionsOnSortedIsIdentity | script.js:218-228 | on sorted input the shifting loop never runs and every key is written back into its own cell, so insertion sort leaves the array as it is |
| InsertionModel.InsertLandsAfter | script.js:218-228 | the key lands right after the last element not greater than it, in front of the greater ones |
| InsertionModel.ShiftedPlace | script.js:218-228 | the shifts down to the hole, then writing the key there, give Insert of the prefix |
| InsertionModel.Shifted | script.js:218-224 | the array during the shifting loop, with the cells after the hole moved one place right; its contract keeps only the length, and ShiftedStep and ShiftedPlace state what it does |
| InsertionModel.CancelledShiftLosesKey | script.js:218-224 | on [3, 2, 1], a run stopped after the first shift of outer iteration 2 holds [2, 3, 3]: the key 1 is lost and 3 doubled, so the heights are no permutation of the input |
| Engine.PlaceKey | script.js:228 | ShiftedPlace for the bar heights |
| Engine.Visualizer.InsertionSort | script.js:208-235 | a run that is not cancelled leaves InsertionSortBy of the input: sorted, and a permutation. A sorted input is left as it is, even by a cancelled run; a run started with the flag set, on a page without cancellation, finishes |
| Engine.Visualizer.InsertionPasses | script.js:210-234 | the outer loop ends in InsertionSortBy of the input unless the flag is found cleared, and leaves a sorted input as it is |
| Engine.Visualizer.InsertKey | script.js:211-233 | one outer iteration, if not stopped, turns the array into Insert of its prefix plus the untouched rest; when no earlier cell is greater than the key it changes nothing, stopped or not |
| Engine.Visualizer.ShiftGreater | script.js:218-224 | the shifting loop, stopped or not, has shifted the cells from the hole on one place right, each of them greater than the key; when not stopped, the cell before the hole is not greater |
| MergeModel.MergeBy | script.js:250-280 | the merge of two copies has exactly their combined length |
| MergeModel.LeftHalf | script.js:240 | `mid` splits a range of two or more cells into two non-empty halves |
| MergeModel.MergePermutes | script.js:250-280 | the merge holds exactly the elements of both copies |
| MergeModel.MergeSorted | script.js:256-279 | merging two sorted copies gives a sorted range |
| MergeModel.MergeKeepsOrderPerKey | script.js:259 | taking the left head on ties (`<=`) keeps every equal key of the left copy before those of the right |
| MergeModel.MergeSortPermutes | script.js:238-248 | merge sort permutes its range |
| MergeModel.MergeSortBy | script.js:238-248 | `mergeSort` of a range as a function of its contents; its contract keeps only the length, and MergeSortSorted, MergeSortPermutes and MergeSortStable state what it does |
| MergeModel.MergeSortSorted | script.js:238-248 | merge sort leaves its range sorted |
| MergeModel.MergeSortStable | script.js:238-248 | merge sort is stable |
| MergeModel.MergeNext | script.js:256-278 | each write of `merge` puts the next cell of the merge, taken from the left head when it is not greater |
| MergeModel.MergeSortSplitAt | script.js:240-243 | merge sort of a range is the merge of its two sorted halves cut after `mid` |
| Engine.MergeTakeLeft | script.js:259-260 | writing the left head keeps the merge written so far a prefix of the merge |
| Engine.MergeTakeRight | script.js:261-262 | writing the right head keeps the merge written so far a prefix of the merge |
| Engine.Visualizer.Merge | script.js:250-280 | `merge` replaces cells start..end by the merge of their two halves and leaves every other cell alone |
| Engine.Visualizer.MergeHeads | script.js:256-267 | the comparing loop writes the merge prefix until one copy is used up |
| Engine.Visualizer.MergeLeftRest | script.js:268-273 | the loop copies what is left of the left copy |
| Engine.Visualizer.MergeRightRest | script.js:274-279 | the loop copies what is left of the right copy |
| Engine.Visualizer.MergeSort | script.js:238-248 | `mergeSort(start, end)` replaces the range by its merge sort and leaves the rest alone, whatever happens to the flag |
| Engine.Visualizer.SortHalvesAndMerge | script.js:240-243 | sorting both halves and then merging them sorts the range |
| Engine.MergeSortComposes | script.js:240-243 | the two recursive calls and `merge`, each acting on what the previous one left, compose to the range's merge sort |
| Engine.MidIsLeftHalf | script.js:240-242 | floor((start + end) / 2) + 1 is where MergeSortBy starts its right half |
| Engine.ShortRangeStays | script.js:239 | a range of at most one cell is left as it is: `mergeSort` returns at once when start >= end (script.js:239), and `quickSort` skips the partition when low >= high (its `low < high` test, script.js:284) |
| Engine.MergeSortOutcome | script.js:238-248 | the call over the whole array sorts it and keeps its elements |
| QuickModel.LomutoScan | script.js:299-309 | after j steps, the count of smaller elements found is at most j |
| QuickModel.PartitionBy | script.js:294-315 | the pivot's final index lies inside the range |
| QuickModel.LomutoScanSplits | script.js:299-309 | the scan keeps its invariant: the smaller cells come first, the rest follow, and unscanned cells are unchanged |
| QuickModel.LomutoScanPermutes | script.js:299-309 | the scan only exchanges cells |
| QuickModel.ScanStep | script.js:302-307 | one step of the scan keeps the invariant, whether the cell is smaller than the pivot or not |
| QuickModel.PartitionSplits | script.js:294-315 | `partition` places the old last cell at p: every cell before p is strictly smaller, none after it is, and the range is permuted |
| QuickModel.QuickSortPermutes | script.js:283-292 | quick sort permutes its range |
| QuickModel.QuickSortBy | script.js:283-292 | `quickSort` of a range as a function of its contents; its contract keeps only the length, and QuickSortSorted and QuickSortPermutes state what it does |
| QuickModel.QuickSortSorted | script.js:283-292 | quick sort leaves its range sorted |
| QuickModel.QuickSortKeepsBounds | script.js:283-292 | a bound on every key of a side still holds after that side is sorted |
| Engine.PartitionTake | script.js:302-305 | the smaller cell is exchanged to the end of the smaller part, as LomutoScan does |
| Engine.PartitionSkip | script.js:302-308 | a cell not smaller than the pivot stays where it is |
| Engine.Visualizer.PartitionScan | script.js:295-309 | the loop of `partition` leaves the range as the scan, and `i + 1` is the count of smaller cells after `low` |
| Engine.Visualizer.PartitionStep | script.js:300-308 | one iteration of the loop of `partition` takes the range one step of the scan further: a cell smaller than the pivot is exchanged to the end of the smaller part, and `i + 1` stays the count of smaller cells after `low` |
| Engine.Visualizer.Partition | script.js:294-315 | `partition` makes the range PartitionBy of it, returns the pivot's index, and leaves the other cells alone |
| Engine.Visualizer.QuickSort | script.js:283-292 | `quickSort(low, high)` replaces the range (possibly empty) by its quick sort and leaves the rest alone, whatever happens to the flag |
| Engine.Visualizer.SortAroundPivot | script.js:284-288 | partitioning and then sorting both sides sorts the range |
| Engine.QuickSortComposes | script.js:285-287 | the partition and the two recursive calls, each acting on what the previous one left, compose to the range's quick sort |
| Engine.QuickSortOutcome | script.js:283-292 | the call over the whole array sorts it and keeps its elements |
| Engine.Visualizer.Pause | script.js:105-107 | a sleep never sets the flag, and on a page without cancellation it keeps it as it was |
| Engine.Visualizer.MarkSortedGradually | script.js:140-147 | marking the bars never sets the flag and never changes the heights |
| Engine.Visualizer.RunSort | script.js:120-138 | a click during a run changes nothing, and the flag stays set. Otherwise the flag ends cleared, every algorithm but a cancelled insertion sort permutes the heights, merge and quick sort always finish, every algorithm finishes on a page without cancellation, and a finished run leaves the algorithm's sorted result |
| Engine.SortOf | script.js:29-33 | the sort each button runs; every one of the five leaves a sorted permutation of the array |
| Engine.Visualizer.GenerateArray | script.js:68-75 | during a run nothing happens; otherwise the array becomes a new one holding the given heights |
| Engine.Visualizer.CancelSortingAndGenerate | script.js:59-66 | the flag ends cleared. A run in progress is cancelled and the array is left to a later GenerateArray; otherwise the new array is made at once |
| Engine.Visualizer.constructor | script.js:3-6 | the page starts with an empty array, no run in progress, and the given choice of whether runs may be cancelled |

## Left out

- The DOM: the bar elements, their colours and heights, `renderArray`,
  `setControlsDisabled` and the slider handlers. The speed slider only sets
  `speed`. The size slider sets `arraySize` and then calls `generateArray`,
  which is GenerateArray with `arraySize` values.
- `rand` and `window.innerHeight`: the new heights are the parameter
  `values` of GenerateArray. Which range they are drawn from is not
  modelled.
- `sleep`, `speed` and `setTimeout`: a pause is a point where the flag may be
  cleared, at any pause, when `mayCancel` holds. The page disables the
  Generate button while a run is in progress, so a page with `mayCancel`
  false is the page as written; with `mayCancel` true the model
  over-approximates what the page allows.
- Engine.Visualizer.CancelSortingAndGenerate: the `setTimeout(generateArray, 50)`
  of a cancelled run is returned as `deferred`. It is not scheduled.
  Nothing in the model runs it in the middle of a merge or quick sort, which
  do not stop when cancelled.
- Engine.Visualizer.InsertionSort: nothing is promised about a cancelled
  run, except that a sorted input is kept. A cancellation in the middle of a
  shift leaves one value doubled and the key missing, so the heights are
  then not a permutation of the input (InsertionModel.CancelledShiftLosesKey
  gives such a run).
- Engine.Visualizer.RunSort: the `catch` branch is not modelled, because
  none of the modelled routines can fail.
- JavaScript numbers are modelled as unbounded integers. The heights and
  indices stay far below 2^53.
