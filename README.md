# Sorting Algorithm Visualizer — verified model of the step engines

The application draws an integer array as a bar chart. It sorts the array
with one of five engines, redrawing the chart and a text log after every
step. Each engine is a Python generator. It sorts a working list in place,
appends one line to a shared `steps` list for each swap, shift or merge
write, and at every step yields three things: the list, the positions to
highlight in red, and a copy of the log so far. Insertion sort's placement
of the key is a step of its own that adds no line. The main logic picks the engine from the
sidebar label (anything unrecognised falls through to quick sort). It
drains the generator over a copy of the random input and finally reports
the working array.

The model has one module per engine, plus two shared modules and the
dispatch:

- `Steps` holds the shared data model:
  - `Entry` is a log line, as a datatype carrying the values the engine
    formats into it.
  - `Step` is what one `yield` hands over: snapshot, highlighted
    positions and log copy.
  - `Run` is the working array, the log and the steps taken so far.
  - It also holds the swap, append and yield primitives and the shared
    invariants. `Shaped` says every snapshot has the array's length and
    highlights only real bars. `OnePerStep` says step k carries the first
    k + 1 log entries. `Current` says the array is what the last step
    showed.
- `Counting` defines inversions: pairs p < q with s[p] > s[q].
- `BubbleSort`, `SelectionSort`, `InsertionSort`, `MergeSort` and
  `QuickSort` each model one engine in two forms:
  - a reference definition on values, a family of tail-recursive
    functions that mirror the Python loops branch for branch;
  - a `Sort` method on an `array<int>` that runs the loops imperatively
    and threads the log and the list of steps, proved equal to the
    reference definition.

  The properties are proved about the reference definitions and carried
  over to the methods.
- `Visualizer` models the main logic: the sidebar labels, the if/elif
  dispatch, copying the input into a working array, draining the engine
  and keeping the last log.

Draining a generator to the end corresponds to a complete `trace`. A
consumer that stops early sees a prefix of it. The prefix lemmas
(`...Count`, `...Trace`) say that every earlier step stays as it was.

Where the code and its description disagree, the model follows the code:

- Merge sort moves an element from the left buffer only when it is
  strictly smaller (`left[i] < right[j]`), so ties take the right buffer
  first. On integers the merged values are the same either way.
- Merge sort takes one step per written position. A merge of [4, 2]
  therefore takes two steps, not one.
- After partitioning [low, high], quick sort recurses only on
  [low, high - 1], not on the two sides of the pivot. The result is always
  a permutation of the input. Inputs of up to two elements end sorted, but
  longer ones need not: [2, 3, 1] ends as [1, 3, 2], and [9, 5, 1, 3] ends
  as [1, 3, 9, 5].
- Selection sort swaps at every outer index, including self-swaps. An
  input of length 1 therefore takes one step.

## Model

| member | source | states |
|---|---|---|
| Steps.SwapPermutes | app.py:61 | the tuple swap keeps the length and the element multiset, exchanges positions i and j, and leaves every other position alone |
| Steps.SwapMultiset | app.py:61 | the tuple swap keeps the element multiset |
| Steps.RecordKeepsShape | app.py:60-62 | a step that writes the array, appends one entry and yields `steps.copy()` with in-range highlights keeps snapshots well shaped, keeps one log entry per step, and leaves the array equal to the new snapshot |
| Counting.InversionsZeroIffSorted | app.py:57-62 | an array has no inversions exactly when it is ascending |
| Counting.SwapAdjacentInversion | app.py:59-61 | swapping an adjacent out-of-order pair removes exactly one inversion |
| BubbleSort.Pass | app.py:58-62 | one inner pass keeps the array's length; what it does is stated by PassFrame and PassBubblesMax |
| BubbleSort.Passes | app.py:57-62 | the outer loop keeps the array's length; what it does is stated by BubbleCorrect |
| BubbleSort.SwapKeepsValid | app.py:59-62 | a swap step keeps the run invariant: each step swaps an out-of-order adjacent pair of the array before it and logs the two values in their old order, the run is a permutation, and the steps taken plus the remaining inversions equal the input's inversions |
| BubbleSort.PassKeepsValid | app.py:58-62 | a whole inner pass keeps that invariant |
| BubbleSort.PassesKeepValid | app.py:57-62 | the whole outer loop keeps that invariant |
| BubbleSort.PassFrame | app.py:58-62 | pass i permutes the array and leaves positions n - i onwards alone |
| BubbleSort.PassBubblesMax | app.py:58-62 | pass i carries the largest of arr[..n - i] to position n - i - 1 |
| BubbleSort.PassesSort | app.py:57-62 | the passes from i on, starting with the last i positions sorted and holding the largest values, sort the whole array |
| BubbleSort.BubbleCorrect | app.py:54-62 | the engine sorts and permutes; its step count equals the input's inversions, so no steps exactly when the input is sorted; every step is a logged swap of an adjacent out-of-order pair; snapshots are well shaped with one log entry per step |
| BubbleSort.Sort | app.py:54-62 | the in-place loops give exactly the reference run's final array and steps, so the array ends sorted, permuted, after one step per inversion |
| SelectionSort.MinIndex | app.py:68-71 | the scan returns a position at or after its start |
| SelectionSort.Outer | app.py:67-74 | the outer loop keeps the array's length; what it does is stated by SelectionCorrect |
| SelectionSort.MinIndexIsFirstMin | app.py:68-71 | the strict `<` scan finds the first position of the minimum of arr[i..] |
| SelectionSort.SwapExtendsPrefix | app.py:72 | swapping that minimum into position i extends the sorted prefix, which holds the smallest elements, by one |
| SelectionSort.EarlierStepsKept | app.py:74 | appending a step keeps what was proved of the earlier steps |
| SelectionSort.NewStep | app.py:68-74 | the new step swaps the first minimum of the remaining suffix into position i, highlights [i, min_idx], logs the two values read after the swap, and leaves i + 1 positions sorted below the rest |
| SelectionSort.SelectKeepsValid | app.py:67-74 | one outer iteration keeps the run invariant: permutation, sorted prefix, one well-formed step per index |
| SelectionSort.OuterKeepsValid | app.py:67-74 | the remaining outer iterations keep it to the end |
| SelectionSort.SelectionCorrect | app.py:64-74 | the engine sorts and permutes and takes exactly n steps; step k swaps the first minimum of the array before it into position k and leaves the first k + 1 positions sorted and below the rest |
| SelectionSort.MinIndexOfSorted | app.py:68-71 | on ascending input the scan keeps its start position |
| SelectionSort.OuterStepOnSorted | app.py:67-74 | on ascending input an outer iteration finds position i itself and swaps it with itself |
| SelectionSort.OuterOnSortedKeeps | app.py:67-74 | on ascending input the remaining iterations leave the array unchanged, take one step each and keep the earlier steps |
| SelectionSort.OuterOnSorted | app.py:67-74 | on ascending input every remaining iteration is a self-swap that shows the array unchanged and highlights its own index twice |
| SelectionSort.SelectionOnSorted | app.py:64-74 | sorted input still yields n steps, step k showing the unchanged array with highlights [k, k] |
| SelectionSort.Sort | app.py:64-74 | the in-place loops give exactly the reference run, so the array ends sorted and permuted after n steps |
| InsertionSort.Shift | app.py:79-87 | one outer iteration keeps the array's length; what it does is stated by Iteration, ShiftSnapshots, ShiftHighlights, ShiftLogs and ShiftPlaced |
| InsertionSort.Outer | app.py:78-87 | the outer loop keeps the array's length; what it does is stated by InsertionCorrect |
| InsertionSort.InsertPos | app.py:80-81 | the scan stops one past the first element not above the key: every element it passes is greater than the key, and the one before the stop is not |
| InsertionSort.ShiftOnce | app.py:83 | a shift step moves the mid-iteration array one position further on |
| InsertionSort.PlaceOnce | app.py:86 | the placement writes the key into the hole and gives the inserted array |
| InsertionSort.ShiftState | app.py:79-87 | from any point in the scan, the iteration leaves the key inserted at its insertion point, logs one entry and takes one step per element passed, plus one step to place the key |
| InsertionSort.MovesAre | app.py:81-82 | the entries logged while scanning from j are one per element passed, the c-th naming u[j - c] and the key |
| InsertionSort.ShiftLog | app.py:81-84 | the iteration logs exactly those entries, in scan order |
| InsertionSort.ShiftSnapshots | app.py:81-85 | from any point in the scan, the iteration logs one entry per element passed and takes one more step than that; the shift step for position j shows the array mid-shift with the hole at j |
| InsertionSort.ShiftHighlights | app.py:81-85 | the shift step for position j highlights [j, i], the positions passed in decreasing order |
| InsertionSort.ShiftLogs | app.py:81-85 | each shift step carries the log up to and including its own entry |
| InsertionSort.ShiftPlaced | app.py:86-87 | the last step of an iteration shows the final array, highlights [insertion point, i] and logs nothing new |
| InsertionSort.InsertPosFrom | app.py:80-81 | the scan depends only on the positions it reads |
| InsertionSort.InsertSorted | app.py:78-86 | inserting the key at the scan's stop into a sorted prefix gives a sorted prefix one longer |
| InsertionSort.InsertPermutes | app.py:83-86 | the insertion permutes the array and leaves arr[i + 1..] alone |
| InsertionSort.InsertPermutesPrefix | app.py:83-86 | the insertion permutes arr[..i + 1] |
| InsertionSort.ShiftedDuplicate | app.py:83-85 | mid-shift, the array holds u[j] at both j and j + 1 and lacks the key: its multiset is the original minus the key plus u[j] |
| InsertionSort.ShiftStepDuplicates | app.py:81-85 | the snapshot the shift step for position j yields holds u[j] at both j and j + 1 and lacks the key: its multiset is the original minus the key plus u[j] |
| InsertionSort.PassedOver | app.py:81 | in a sorted prefix, the key passes over exactly the elements greater than it |
| InsertionSort.ShiftCount | app.py:81-84 | the number passed over in iteration i is the number of inversions that s[i] closes with the earlier elements |
| InsertionSort.YieldKeepsTidy | app.py:85-87 | a yield after logging at most one entry keeps snapshots well shaped, every step's log a prefix of the final log growing by at most one entry, and the last step carrying the whole log |
| InsertionSort.ShiftKeepsTidy | app.py:81-87 | a whole iteration keeps that, takes at least one step, and leaves the array equal to the last snapshot |
| InsertionSort.InsertKeepsOrder | app.py:79-86 | on a sorted prefix, inserting arr[i] at the scan's stop leaves arr[..i + 1] ascending, arr[i + 1..] as in the input and the elements permuted; the elements passed over are exactly the inversions s[i] closes with the earlier ones |
| InsertionSort.ShiftProgresses | app.py:79-87 | one iteration keeps the array and the counts part of the run invariant |
| InsertionSort.ShiftKeepsValid | app.py:79-87 | one iteration keeps the run invariant: sorted prefix, permutation, input suffix untouched, log and step counts equal to inversions so far |
| InsertionSort.Iteration | app.py:79-87 | on a sorted prefix, one iteration leaves arr[..i + 1] an ascending permutation of its old contents, arr[i + 1..] untouched, and the log extended by one entry per element passed |
| InsertionSort.OuterKeepsValid | app.py:78-87 | the remaining outer iterations keep the run invariant to the end |
| InsertionSort.InsertionCorrect | app.py:76-87 | the engine sorts and permutes, logs one entry per inversion, takes n - 1 + inversions steps (none for empty input), and the last step carries the whole log |
| InsertionSort.Sort | app.py:76-87 | the in-place loops give exactly the reference run, so the array ends sorted and permuted after n - 1 + inversions steps |
| MergeSort.MergeLoop | app.py:97-106 | the merge loop keeps the array's length; what it does is stated by MergeLoopState |
| MergeSort.MergeSortRun | app.py:89-106 | the recursion keeps the array's length; what it does is stated by MergeSortSorts, MergeSortPermutes and MergeSortCount |
| MergeSort.MergeHalves | app.py:96-106 | copying out the halves and merging back keeps the array's length; what it does is stated by MergeHalvesState |
| MergeSort.Merge | app.py:98-104 | the engine's merge of two buffers has their combined length |
| MergeSort.MergePermutes | app.py:98-104 | the merge keeps every element of both buffers |
| MergeSort.MergeSorted | app.py:98-104 | merging two ascending buffers gives an ascending sequence that starts no higher than either head |
| MergeSort.MergeTurn | app.py:99-104 | each turn of the loop's choice splits the first element off the rest of the merge, from the left buffer when it is strictly smaller or the right buffer is empty, otherwise from the right |
| MergeSort.TieGoesRight | app.py:99 | on equal heads the loop takes from the right buffer |
| MergeSort.MergeLoopState | app.py:98-104 | the loop from (i, j) writes the rest of the merge into arr[l + i + j..r) and changes nothing else |
| MergeSort.MergeLoopCount | app.py:98-106 | the loop from (i, j) takes one step and one log entry per remaining position and keeps the earlier ones |
| MergeSort.InsertsAre | app.py:105 | the entries logged for a merged sequence written from k on name each value with its position |
| MergeSort.MergeLoopLog | app.py:98-105 | the loop logs each value of the merge with the position it is written to, in order |
| MergeSort.MergeLoopTrace | app.py:98-106 | the q-th step of the loop highlights the single position it wrote |
| MergeSort.MergeLoopTidy | app.py:98-106 | the loop keeps snapshots well shaped, one log entry per step, and the array equal to the last snapshot |
| MergeSort.MergeSortTidy | app.py:89-106 | so does the whole recursion |
| MergeSort.MergeBackPermutes | app.py:96-104 | writing the merge of arr[l:m] and arr[m:r] over arr[l:r] keeps the array's elements |
| MergeSort.MergeHalvesState | app.py:96-106 | merging back leaves arr[l:r] holding the merge of the two copied halves and nothing else changed, permutes the array, and takes r - l steps and log entries |
| MergeSort.MergeHalvesTrace | app.py:98-106 | the merge-back steps highlight [k] for k from l to r - 1 in order |
| MergeSort.MergeHalvesWrites | app.py:96-105 | merging back writes the merge of the two copied halves over arr[l:r] and logs one insert per written value, in order |
| MergeSort.InsertsLogged | app.py:105 | a log extended by the inserts of a written range names, for each position in order, the value at that position |
| MergeSort.MergeHalvesLog | app.py:98-105 | the merge-back log names, for each k in order, the value that ends up at k |
| MergeSort.MergeSortFrame | app.py:89-106 | sorting [l, r) touches nothing outside it and keeps the array's elements |
| MergeSort.MergeSortCount | app.py:89-106 | sorting [l, r) takes MergeSteps(l, r) steps with one log entry each (every position once per level where the range has at least two elements), keeping earlier steps and entries |
| MergeSort.MergeSortSorts | app.py:89-106 | sorting [l, r) leaves it ascending |
| MergeSort.MergeSortPermutes | app.py:89-106 | sorting [l, r) permutes its contents |
| MergeSort.MergingCorrect | app.py:89-106 | the engine sorts and permutes, takes MergeSteps(0, n) steps, keeps snapshots well shaped with one log entry per step, and ends with the array the last step showed |
| MergeSort.MergeBack | app.py:96-106 | the imperative copy-out and merge-back loop gives exactly the reference merge-back run |
| MergeSort.SortRange | app.py:89-106 | the recursive method on [l, r) gives exactly the reference recursion's run |
| MergeSort.Sort | app.py:89-106 | the method gives exactly the reference run, so the array ends sorted and permuted after MergeSteps(0, n) steps |
| QuickSort.PartLoop | app.py:111-123 | the partition loop keeps the array's length and places the pivot between i + 1 and high; what it does is stated by PartitionCorrect |
| QuickSort.Partition | app.py:111-123 | partition(low, high) keeps the length and returns a position in [low, high] |
| QuickSort.QuickRun | app.py:108-129 | the recursion keeps the array's length; what it does is stated by QuickPermutes and QuickPartitions |
| QuickSort.PartLoopPermutes | app.py:114-121 | the partition from any point of its loop permutes the array |
| QuickSort.PartLoopFrame | app.py:114-121 | nor does it touch anything outside [low, high] |
| QuickSort.SwapKeepsPartInv | app.py:115-118 | a swap step keeps the loop invariant: arr[low..i] <= pivot, arr(i..j) > pivot, the pivot still at high |
| QuickSort.PlaceSplits | app.py:121 | the final swap puts the pivot at i + 1, with everything before it (from low) <= pivot and everything after it (to high) > pivot |
| QuickSort.PartLoopSplits | app.py:114-121 | from any state satisfying the invariant, the partition ends split around the pivot at the returned position |
| QuickSort.PartLoopLog | app.py:114-123 | the partition appends one "swapped ... (pivot)" entry per swap, naming this pivot, then one "placed pivot" entry carrying the pivot's value; its last step highlights [i + 1, high] |
| QuickSort.PlacedNone | app.py:119-122 | log entries that place no pivot leave the number of placements alone |
| QuickSort.PlacedOneMore | app.py:119-122 | a log extended by swap entries and one final placement records one placement more |
| QuickSort.PartLoopTidy | app.py:114-123 | the partition keeps snapshots well shaped, one log entry per step, and the array equal to the last snapshot |
| QuickSort.PartitionCorrect | app.py:111-123 | partition(low, high) splits [low, high] around the old arr[high], permutes the array, touches nothing outside, and logs swaps naming the pivot followed by one placement carrying it |
| QuickSort.QuickPermutes | app.py:108-129 | quick_sort(low, high) permutes the array and touches nothing outside [low, high] |
| QuickSort.QuickPartitions | app.py:125-129 | quick_sort(low, high) runs one partition for each high down to low + 1, so high - low pivot placements are logged |
| QuickSort.QuickTidy | app.py:108-129 | the recursion keeps snapshots well shaped, one log entry per step, and the array equal to the last snapshot |
| QuickSort.QuickCorrect | app.py:108-129 | the engine permutes its input and runs n - 1 partitions for n >= 2; for n <= 1 it takes no step and leaves the array as it was; inputs of up to two elements end sorted |
| QuickSort.QuickSortsPair | app.py:111-129 | on two elements, partition(0, 1) puts the smaller first and the recursion stops, so the array ends sorted |
| QuickSort.NotAlwaysSorted | app.py:125-129 | because the recursion is on [low, high - 1], the engine leaves [9, 5, 1, 3] as [1, 3, 9, 5], which is not sorted |
| QuickSort.UnsortedOnThree | app.py:125-129 | three elements suffice to go wrong: [2, 3, 1] ends as [1, 3, 2] |
| QuickSort.PartitionRange | app.py:111-123 | the imperative partition gives exactly the reference partition's run and pivot position |
| QuickSort.SortRange | app.py:125-129 | the recursive method gives exactly the reference recursion's run |
| QuickSort.Sort | app.py:108-129 | the method gives exactly the reference run, so the array ends a permutation of the input |
| Visualizer.Choose | app.py:137-146 | the if/elif chain picks the engine whose sidebar label is the name; a name that is no label gives quick sort |
| Visualizer.ChooseLabel | app.py:11-14 | choosing by an engine's own sidebar label gives back that engine |
| Visualizer.EngineCorrect | app.py:137-156 | every engine permutes the input and highlights only existing bars; the last frame drawn shows the reported array and the whole log; with no frames the array is unchanged and nothing is logged; all engines but quick sort report a sorted array, and quick sort does too on inputs of up to two elements |
| Visualizer.Drain | app.py:137-146 | running the chosen engine over the working array gives that engine's reference run |
| Visualizer.Visualize | app.py:133-156 | the main logic on a copy of the input reports the chosen engine's final array and its whole log, a permutation of the input, sorted unless quick sort was chosen on three or more elements |

## Left out

- The Streamlit page, the sidebar widgets, matplotlib drawing and
  `time.sleep` between frames are left out. They are user interface and
  timing. `Visualize` records only the last log and the number of frames.
- The random input (`random.randint(10, 100)`, size 5 to 30) is left out.
  The input is a parameter, and the proofs hold for every integer array.
- The speed-to-delay mapping is presentation only and is left out.
- Log lines are modelled as `Entry` values carrying the numbers the
  f-strings print, not as the formatted text.
- The engines yield the live list, not a copy of it. The model records the
  array as it is at each `yield`, which is what the consumer draws before
  it resumes the generator. Later mutation of the same list object is not
  modelled.
- Python's lazy generators are modelled as the complete list of steps.
  A consumer that stops early sees a prefix of them.
- Python's unbounded `int` matches Dafny's `int`, so no width is modelled.
- MergeSort.TieGoesRight: the tie-break states which buffer is read, not
  which list object ends up at position k. On integers equal values are
  indistinguishable.
- QuickSort.QuickCorrect: it does not state that the array ends sorted
  for inputs of three or more elements, because the code does not sort
  those in general (see NotAlwaysSorted and UnsortedOnThree). The per-step
  snapshots of quick sort and of merge sort are described by their
  invariants and counts, not step by step as for the other three engines.
