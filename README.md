# CompileVerse visualizers, modelled in Dafny

CompileVerse is a browser app built with React. Its pages animate data structures and
algorithms, and its editor page shows an AI code review. This project models the logic
behind those pages:

- **Sorting visualizer.** There are nine sorts (bubble, selection, insertion, merge,
  quick, heap, counting, radix and bucket). Each runs on an array of bar heights and keeps
  counts of comparisons and swaps. The model also covers the controls around a run:
  generate, start or pause, reset, choose the size and choose the algorithm.
- **Tree visualizer.** It has one tree per panel:
  - a plain binary tree and a binary search tree, both filled by `insertBST`;
  - an AVL tree (`insertAVL` with its four rotation cases);
  - a max-heap kept in an array (`insertHeap` and `heapifyUp`);
  - a trie of node objects changed in place (`insertTrie`).

  `handleInsert` and `handleClear` act on the selected panel.
- **Linked-list visualizer.** Insertion at the beginning, at the end or at an index is
  queued as an animation. Processing the animation updates the node list, and a timer
  then lays the list out again. `reset` restores the single initial node.
- **AI review rendering.** `extractCodeBlocks` finds the fenced code blocks of the review
  text, using the regular expression ```` /```(\w*)\n([\s\S]*?)```/g ````.
  `formatAiReview` wraps the result into sections. The renderer then tiles each section
  into trimmed prose pieces and code blocks. Each code editor's height comes from its
  line count.

The modules follow the program:

- `SortStats`, `SortSpec`, `SimpleSorts`, `MergeSorting`, `QuickSorting`, `HeapSorting`,
  `CountingSorting`, `BucketSorting`, `KeyBuckets`, `Arith` and `SortController` model
  `Sorting.jsx`.
- `BinaryTrees`, `HeapInsert`, `Tries` and `TreePlatform` model `Tree.jsx`.
- `LinkedLists` models `Linkedlist.jsx`.
- `Text` and `CodeBlocks` model `App.jsx`.
- `Options` holds the optional value that `BinaryTrees`, `Tries`, `LinkedLists` and
  `CodeBlocks` share.

The sorts work in place on an `array<int>`. Each is proved to leave its array sorted and
a permutation of the input, and each states what it adds to the statistics. Bubble and
insertion sort count exactly one swap per inversion of the input (a pair out of order),
and partition counts exactly the swaps its `i !== j` test lets through. The
three key-based sorts are proved against one reference arrangement, `KeyBuckets.Bucketed`:

- the elements come out grouped by key;
- within a key they keep their input order;
- radix sort's correctness follows from the stability of each digit pass.

The visualizers' states are classes whose methods state their whole new state. Work that
the source defers to `await` or `setTimeout` is a list of pending steps: each sorting run
keeps the copy it sorts, its algorithm and its start time, and each tree insertion keeps
the panel and value of its click. The tree panel keeps the search-tree, AVL and max-heap
invariants. The trie is a graph of
`TrieNode` objects that insertion mutates in place. A ghost set tracks its nodes, and its
words are read off a snapshot of their `children` maps.

## Model

| member | source | states |
|---|---|---|
| SortStats.UpdateStats | frontend/src/components/Sorting.jsx:57-62 | the named counter goes up by exactly one, and the other counter and `time` are unchanged |
| SortSpec.Swap | frontend/src/components/Sorting.jsx:83 | the destructuring swap exchanges the two cells, leaves every other cell alone and keeps the multiset |
| SortSpec.MaxOf | frontend/src/components/Sorting.jsx:376 | `Math.max(...arr)` of a non-empty array is one of its elements and no element exceeds it |
| SortSpec.Inversions | frontend/src/components/Sorting.jsx:65-169 | the number of out-of-order pairs of an array; it is the exact swap count of bubble sort and the exact comparison and swap count of insertion sort |
| SortSpec.SwapAt | frontend/src/components/Sorting.jsx:83 | exchanging the neighbours at `j` and `j+1` keeps the length and every other position |
| SortSpec.AdjacentSwap | frontend/src/components/Sorting.jsx:78-83 | swapping a neighbouring pair that is out of order removes exactly one inversion |
| SortSpec.HeadSwap | frontend/src/components/Sorting.jsx:78-83 | the case of the first two positions |
| SortSpec.TailSwap | frontend/src/components/Sorting.jsx:78-83 | a swap further right leaves the inversions of the first element unchanged |
| SortSpec.BelowSwap | frontend/src/components/Sorting.jsx:78-83 | the number of elements below a value is the same after a neighbour swap |
| SortSpec.BelowPair | frontend/src/components/Sorting.jsx:78-83 | counting the elements below a value over two leading elements and a rest |
| SortSpec.BelowNone | frontend/src/components/Sorting.jsx:65-169 | no element of a sorted tail lies below a value at most its head |
| SortSpec.SortedInversions | frontend/src/components/Sorting.jsx:65-169 | a sorted array has no inversions, so a sort that removes one per swap has swapped once per inversion |
| SimpleSorts.BubbleSort | frontend/src/components/Sorting.jsx:65-95 | the array ends sorted and a permutation of the input; exactly n(n-1)/2 comparisons and exactly one swap per inversion of the input; `time` is untouched |
| SimpleSorts.BubblePass | frontend/src/components/Sorting.jsx:70-90 | one inner pass over `[0, m)` moves a maximum of that prefix to `m-1`; keeps the sorted suffix final; permutes; counts `m-1` comparisons; each swap counted removes one inversion |
| SimpleSorts.BubbleStep | frontend/src/components/Sorting.jsx:75-87 | one comparison and conditional swap carries the largest element of `[0, j]` on to `j+1` and counts one comparison; the swap counter and the inversions together are unchanged |
| SimpleSorts.SwapOutOfOrder | frontend/src/components/Sorting.jsx:78-83 | swapping `newArray[j]` and `newArray[j+1]` when the first is larger exchanges them and removes exactly one inversion |
| SimpleSorts.PassComparisonsTotal | frontend/src/components/Sorting.jsx:69-70 | the `n-1-i` comparisons of the first `i` outer passes add up to i(2n-i-1)/2 |
| SimpleSorts.AllPassComparisons | frontend/src/components/Sorting.jsx:69-70 | all outer passes together compare n(n-1)/2 times |
| SimpleSorts.SelectionSort | frontend/src/components/Sorting.jsx:98-134 | sorted and a permutation; exactly n(n-1)/2 comparisons, and at most n-1 swaps because a swap is skipped when `minIdx === i` |
| SimpleSorts.FindMin | frontend/src/components/Sorting.jsx:103-116 | the index found is the first minimum of `arr[i..]` (every earlier index holds a strictly larger value, as the strict `<` keeps the leftmost), after exactly `n-1-i` comparisons |
| SimpleSorts.InsertionSort | frontend/src/components/Sorting.jsx:137-169 | sorted and a permutation; the comparisons and the swaps are each exactly the number of inversions of the input; `time` is untouched |
| SimpleSorts.Insert | frontend/src/components/Sorting.jsx:142-167 | one outer step turns the sorted prefix `[0, i)` into the sorted prefix `[0, i]`; leaves the suffix alone; counts one comparison and one swap per element shifted, which is the number of inversions it removes |
| SimpleSorts.ShiftLarger | frontend/src/components/Sorting.jsx:150-161 | the `while` loop shifts exactly the run of prefix elements greater than `key` one place right; stops at -1 or at an element `<= key`; counts `i-1-j` comparisons and swaps |
| SimpleSorts.SortedPrefix | frontend/src/components/Sorting.jsx:142-167 | a sorted prefix as a slice gives the pointwise order the inner loop needs |
| SimpleSorts.Inserted | frontend/src/components/Sorting.jsx:157-163 | the array that places `arr[i]` at `j+1` after the shift has the input's length |
| SimpleSorts.InsertedAt | frontend/src/components/Sorting.jsx:157-163 | that array holds the old prefix up to `j`, the key at `j+1`, the shifted run up to `i`, and the old suffix |
| SimpleSorts.InsertedSorted | frontend/src/components/Sorting.jsx:150-163 | placing the key after the last element not greater than it leaves `[0, i]` sorted |
| SimpleSorts.InsertedFrame | frontend/src/components/Sorting.jsx:157-163 | shifting and placing the key permutes the array |
| SimpleSorts.InsertedStep | frontend/src/components/Sorting.jsx:150-163 | the array after the shift and the placing of the key is sorted up to `i`; is a permutation; has `i-1-j` fewer inversions |
| SimpleSorts.InsertedInversions | frontend/src/components/Sorting.jsx:150-163 | moving the key past the `i-1-j` larger elements before it removes exactly that many inversions |
| SimpleSorts.InsertedSwap | frontend/src/components/Sorting.jsx:157-163 | moving the key one place left by a neighbour swap and then the rest of the way is the same as moving it all at once |
| MergeSorting.MergeRuns | frontend/src/components/Sorting.jsx:193-225 | the merge of two runs, taking from the left on ties, is as long as both runs together |
| MergeSorting.MergeRunsPermutation | frontend/src/components/Sorting.jsx:185-228 | the merge holds exactly the elements of the two runs |
| MergeSorting.MergeRunsAbove | frontend/src/components/Sorting.jsx:185-228 | a lower bound on both runs bounds the merge |
| MergeSorting.MergeRunsSorted | frontend/src/components/Sorting.jsx:185-228 | merging two sorted runs gives a sorted run |
| MergeSorting.MergeStepsBounds | frontend/src/components/Sorting.jsx:193-211 | the comparing loop runs at least min(l, r) and at most l + r - 1 times when both runs are non-empty, and never more than l + r |
| MergeSorting.MergeRunsOrdered | frontend/src/components/Sorting.jsx:193-225 | runs that are already in order merge to their concatenation, after one comparison per element of the left run (none when the right run is empty) |
| MergeSorting.MergeStep | frontend/src/components/Sorting.jsx:199-205 | one turn of the comparing loop takes `leftArr[i]` when it is `<= rightArr[j]` and `rightArr[j]` otherwise |
| MergeSorting.MergeAdvance | frontend/src/components/Sorting.jsx:199-207 | one turn of the comparing loop writes the next element of the merge and counts one round |
| MergeSorting.Merge | frontend/src/components/Sorting.jsx:185-228 | `arr[left..right]` becomes the merge of its two old halves, nothing outside changes, and both counters go up by the number of comparing steps |
| MergeSorting.MergeMain | frontend/src/components/Sorting.jsx:193-211 | the comparing loop writes the merge's first `i + j` elements and stops only when one run is used up |
| MergeSorting.CopyRun | frontend/src/components/Sorting.jsx:213-225 | each leftover loop copies the rest of its run into place and touches nothing else |
| MergeSorting.LeftoverRun | frontend/src/components/Sorting.jsx:213-225 | once one run is used up, the rest of the merge is the rest of the other run |
| MergeSorting.MergeSort | frontend/src/components/Sorting.jsx:172-183 | `arr[left..right]` ends sorted and a permutation of itself, the rest of the array is unchanged, and comparisons equal swaps |
| MergeSorting.SegmentsAfterSorts | frontend/src/components/Sorting.jsx:180-182 | after the two recursive calls, both halves are sorted and together hold the old segment |
| MergeSorting.MergeSortAll | frontend/src/components/Sorting.jsx:172 | the default call `mergeSort(arr)` sorts and permutes the whole array |
| QuickSorting.Partition | frontend/src/components/Sorting.jsx:239-272 | returns `p` in `[low, high]` holding the old pivot `arr[high]`; smaller elements lie before `p` and the rest after it; it permutes `[low, high]` only; exactly `high-low` comparisons; exactly `(p-low) - L` swaps where `L` is the length of the leading run below the pivot, whose elements are never moved because `i === j` |
| QuickSorting.PartitionStep | frontend/src/components/Sorting.jsx:247-265 | one turn of the loop: an element below the pivot moves to `i+1`, counting a swap exactly when `i+1 !== j`; any other element stays; one comparison is counted |
| QuickSorting.BelowRun | frontend/src/components/Sorting.jsx:254-256 | the length of the leading run of elements below the pivot |
| QuickSorting.BelowRunSpec | frontend/src/components/Sorting.jsx:254-256 | the run holds only elements below the pivot and is followed by one that is not |
| QuickSorting.BelowRunLength | frontend/src/components/Sorting.jsx:254-256 | the run is no longer than the segment |
| QuickSorting.BelowRunAt | frontend/src/components/Sorting.jsx:254-256 | position by position: before the run ends an element is below the pivot and at its end one is not |
| QuickSorting.QuickSort | frontend/src/components/Sorting.jsx:231-237 | `arr[low..high]` ends sorted and a permutation of itself; the rest is unchanged; at most m(m-1)/2 comparisons for m elements |
| QuickSorting.SortSides | frontend/src/components/Sorting.jsx:233-235 | the two recursive calls sort both sides; each side is a permutation of itself; the rest is kept; their comparisons stay within the pairs of each side |
| QuickSorting.PartitionThenSides | frontend/src/components/Sorting.jsx:231-237 | partitioning and then sorting both sides leaves the segment sorted and permuted and everything else unchanged |
| QuickSorting.QuickSortAll | frontend/src/components/Sorting.jsx:231 | `quickSort(arr)` sorts and permutes the whole array within n(n-1)/2 comparisons |
| QuickSorting.SidesSorted | frontend/src/components/Sorting.jsx:233-235 | two sorted sides around a placed pivot make a sorted segment |
| QuickSorting.SidesPermutation | frontend/src/components/Sorting.jsx:233-235 | partitioning and sorting both sides permute the segment and leave the rest alone |
| QuickSorting.QuickBound | frontend/src/components/Sorting.jsx:231-237 | `high-low` partition comparisons plus the pairs of both sides stay within m(m-1)/2 |
| HeapSorting.Heapify | frontend/src/components/Sorting.jsx:301-331 | sifting `arr[i]` down within the first `n` cells restores the max-heap below `lo` where only `i` was out of place, and permutes only `[i, n)` |
| HeapSorting.SiftStep | frontend/src/components/Sorting.jsx:320-327 | swapping with the larger child moves the single violation down to that child |
| HeapSorting.RootMax | frontend/src/components/Sorting.jsx:285-288 | in a max-heap the root holds a maximum |
| HeapSorting.LeavesAreHeaps | frontend/src/components/Sorting.jsx:280 | the nodes from `floor(n/2)` on are leaves, so the heap-building loop may start below them |
| HeapSorting.BuildHeap | frontend/src/components/Sorting.jsx:280-282 | the first loop turns the array into a max-heap and keeps its elements |
| HeapSorting.RootToEnd | frontend/src/components/Sorting.jsx:285-295 | swapping the root with `arr[i]` puts a maximum in its final place and leaves one violation at the root |
| HeapSorting.PrefixPermuted | frontend/src/components/Sorting.jsx:295 | rearranging the heap prefix keeps the sorted suffix final |
| HeapSorting.HeapSort | frontend/src/components/Sorting.jsx:275-299 | sorted and a permutation, with at least n-1 swaps counted |
| HeapSorting.ExtractMax | frontend/src/components/Sorting.jsx:289-297 | one extraction turn moves the heap root behind the heap and sifts down again: the heap shrinks by one and the sorted suffix grows by one, as a permutation with one swap counted |
| CountingSorting.Tally | frontend/src/components/Sorting.jsx:340-344 | `count[v]` ends as the number of elements with key `v` |
| CountingSorting.Accumulate | frontend/src/components/Sorting.jsx:347-349 | the prefix-sum loop turns `count[v]` into the number of elements with key at most `v` |
| CountingSorting.Cover | frontend/src/components/Sorting.jsx:352-361 | every output position falls in the range of exactly one key |
| CountingSorting.PlaceTarget | frontend/src/components/Sorting.jsx:356 | `count[key] - 1` is the element's place in the stable arrangement by key |
| CountingSorting.PlaceTargetCount | frontend/src/components/Sorting.jsx:356 | when an element is placed the count for its key is past the equal keys already placed and within the keys up to its own |
| CountingSorting.Place | frontend/src/components/Sorting.jsx:352-361 | the backwards placing loop fills `output` with the stable arrangement by key and counts one swap per element |
| CountingSorting.PlaceOne | frontend/src/components/Sorting.jsx:355-357 | one placing step writes `arr[j]` to its place and lowers its key's count |
| CountingSorting.PlaceStart | frontend/src/components/Sorting.jsx:352 | the cumulative counts are where the placing loop starts |
| CountingSorting.PlaceEnd | frontend/src/components/Sorting.jsx:352-361 | once the loop has finished, `output` is the whole stable arrangement |
| CountingSorting.LayoutKeyAt | frontend/src/components/Sorting.jsx:352-361 | position `p` of the arrangement holds an element whose key's range contains `p` |
| CountingSorting.CopyBack | frontend/src/components/Sorting.jsx:363-368 | the final loop copies `output` back over `arr` |
| CountingSorting.CountingPass | frontend/src/components/Sorting.jsx:336-368 | one counting pass leaves `arr` as the stable arrangement by key and counts `n` swaps |
| CountingSorting.CountingSort | frontend/src/components/Sorting.jsx:334-372 | throws exactly on an empty array (`new Array(-Infinity)`), leaving the array and the counters unchanged; otherwise sorted, a permutation and `n` swaps |
| CountingSorting.IdentityKeys | frontend/src/components/Sorting.jsx:335-336 | values in `[0, max]` index `count` of length `max + 1` |
| CountingSorting.IdentityLayout | frontend/src/components/Sorting.jsx:334-372 | arranging by the value itself sorts |
| CountingSorting.CountingSortForRadix | frontend/src/components/Sorting.jsx:386-417 | one pass arranges `arr` stably by the decimal digit `floor(v / exp) % 10` and counts `n` swaps |
| KeyBuckets.DigitKey | frontend/src/components/Sorting.jsx:391 | the key `Math.floor(v / exp) % 10` of a radix pass; RadixStep states what ordering by it achieves |
| CountingSorting.RadixSort | frontend/src/components/Sorting.jsx:375-384 | sorted and a permutation; an empty array makes no pass; otherwise one pass per decimal digit of the maximum, with `n` swaps each |
| CountingSorting.RadixPasses | frontend/src/components/Sorting.jsx:378-381 | the digit loop from `exp = 1` while `max / exp >= 1` leaves the array sorted and a permutation with `n` swaps per decimal digit of the maximum |
| CountingSorting.RadixRound | frontend/src/components/Sorting.jsx:379-380 | one pass by the digit at `exp` keeps a permutation and extends the order by the low digits by one digit |
| CountingSorting.RadixPass | frontend/src/components/Sorting.jsx:378-381 | an array ordered modulo `exp` becomes ordered modulo `10·exp` after a stable pass on the next digit |
| CountingSorting.RadixDone | frontend/src/components/Sorting.jsx:378 | once `exp` exceeds the maximum, order modulo `exp` is plain order |
| KeyBuckets.BucketedPermutation | frontend/src/components/Sorting.jsx:352-361 | the arrangement by key holds exactly the input's elements |
| KeyBuckets.BucketedOrdered | frontend/src/components/Sorting.jsx:386-417 | the arrangement is ordered wherever the keys decide the order, and keeps the input's order between equal keys |
| KeyBuckets.IdentitySorted | frontend/src/components/Sorting.jsx:334-372 | arranging by the value itself gives a sorted array |
| KeyBuckets.RadixStep | frontend/src/components/Sorting.jsx:378-381 | a stable digit pass extends the order modulo `exp` to modulo `10·exp` |
| Arith.DigitCountBounds | frontend/src/components/Sorting.jsx:378 | the loop `for (exp = 1; floor(max / exp) > 0; exp *= 10)` runs once per decimal digit of `max` |
| Arith.BucketIndexRange | frontend/src/components/Sorting.jsx:427 | for values in `[0, max]` the bucket index lies in `[0, n-1]`, so `buckets[bucketIndex]` exists |
| Arith.BucketIndexMonotone | frontend/src/components/Sorting.jsx:427 | larger values never go to earlier buckets |
| Arith.BucketIndex | frontend/src/components/Sorting.jsx:427 | the bucket index taken exactly as `floor(v * (n-1) / max)`; BucketIndexRange and BucketIndexMonotone state its properties |
| BucketSorting.InsertSorted | frontend/src/components/Sorting.jsx:435 | inserting into a sorted run adds one element |
| BucketSorting.InsertSortedPermutation | frontend/src/components/Sorting.jsx:435 | it adds exactly that element |
| BucketSorting.InsertSortedSorted | frontend/src/components/Sorting.jsx:435 | and keeps the run sorted |
| BucketSorting.SortSeq | frontend/src/components/Sorting.jsx:435 | `buckets[i].sort((a, b) => a - b)` keeps the bucket's length |
| BucketSorting.SortSeqPermutation | frontend/src/components/Sorting.jsx:435 | it keeps the bucket's elements |
| BucketSorting.SortSeqSorted | frontend/src/components/Sorting.jsx:435 | and sorts it |
| BucketSorting.ConcatGrows | frontend/src/components/Sorting.jsx:433-445 | collecting more buckets never shortens the output |
| BucketSorting.Distribute | frontend/src/components/Sorting.jsx:426-431 | bucket `b` ends with the elements whose index is `b`, in input order |
| BucketSorting.WriteRun | frontend/src/components/Sorting.jsx:436-444 | writing one sorted bucket puts it at `index` and counts a swap per item |
| BucketSorting.Collect | frontend/src/components/Sorting.jsx:433-446 | the collecting loop writes the sorted buckets one after the other over `arr` |
| BucketSorting.SortedRuns | frontend/src/components/Sorting.jsx:433-435 | the sorted buckets, one per bucket |
| BucketSorting.SortedRunsLayout | frontend/src/components/Sorting.jsx:420-453 | the sorted buckets laid end to end are a sorted permutation of the input |
| BucketSorting.ConcatPermutation | frontend/src/components/Sorting.jsx:433-446 | laid end to end, they hold the elements of the arrangement by bucket |
| BucketSorting.ConcatSorted | frontend/src/components/Sorting.jsx:433-446 | concatenating in bucket order gives a sorted run, because earlier buckets hold no larger values |
| BucketSorting.SortedBucket | frontend/src/components/Sorting.jsx:427-435 | a sorted bucket holds only values of its own index |
| BucketSorting.WithinSub | frontend/src/components/Sorting.jsx:426-431 | the values of a bucket lie within the range of the input |
| BucketSorting.BucketSort | frontend/src/components/Sorting.jsx:420-453 | throws exactly when the array is non-empty and all zero (`0 / 0` indexes no bucket), leaving the array and the counters unchanged; otherwise sorted, a permutation and `n` swaps |
| SortController.RunAlgorithm | frontend/src/components/Sorting.jsx:472-486 | the selected sort runs; unless it throws the array ends sorted and permuted; a throw changes nothing; the counters grow as `Counted` states; the time is untouched |
| SortController.RunComparisonSort | frontend/src/components/Sorting.jsx:475-480 | the six comparison sorts never throw; each sorts and permutes the copy and grows the counters as `Counted` states |
| SortController.RunKeySort | frontend/src/components/Sorting.jsx:481-483 | the counting radix and bucket sorts throw exactly as `Throws` states; otherwise they sort and permute the copy; counters as `Counted` states |
| SortController.Throws | frontend/src/components/Sorting.jsx:334-453 | counting sort throws on an empty array (`new Array(-Infinity)`); bucket sort throws on a non-empty all-zero array (`0 / 0` indexes no bucket); no other run throws on values below 2^32 - 1 |
| SortController.Counted | frontend/src/components/Sorting.jsx:65-453 | per algorithm: bubble n(n-1)/2 comparisons and one swap per inversion; selection n(n-1)/2 and at most n-1 swaps; insertion one of each per inversion; merge equal counts; quick within n(n-1)/2; heap at least n-1 swaps; counting n swaps; radix n swaps per digit of the maximum; bucket n swaps |
| SortController.HalfPairs | frontend/src/components/Sorting.jsx:69-70 | n(n-1)/2 is the number of pairs among n elements |
| SortController.GeneratedThrows | frontend/src/components/Sorting.jsx:36-38 | on generated values in `[10, 409]`, only counting sort on an empty array throws |
| SortController.SortingVisualizer.constructor | frontend/src/components/Sorting.jsx:5-17 | the initial state with size 50 and bubble sort, followed by the mount-time `generateArray` (lines 31-33) |
| SortController.SortingVisualizer.ResetVisualization | frontend/src/components/Sorting.jsx:44-53 | zero statistics, not animating and not paused, and the arrays are kept |
| SortController.SortingVisualizer.GenerateArray | frontend/src/components/Sorting.jsx:35-42 | the displayed and saved arrays both become the drawn values, followed by the visualization reset |
| SortController.SortingVisualizer.SetArraySize | frontend/src/components/Sorting.jsx:554 | a new size makes the effect at lines 31-33 generate an array of that size |
| SortController.SortingVisualizer.SetAlgorithm | frontend/src/components/Sorting.jsx:534 | only the selected algorithm changes |
| SortController.SortingVisualizer.StartSorting | frontend/src/components/Sorting.jsx:461-471 | while animating only the pause flag flips; otherwise the statistics are reset and a new pending run is added with a copy of the displayed array and the selected algorithm and `now` as its own `startTime` |
| SortController.SortingVisualizer.CompleteRun | frontend/src/components/Sorting.jsx:471-492 | the pending run `k` sorts its own snapshot with its own algorithm; unless it threw the displayed array becomes a sorted permutation of that snapshot; a throw keeps it; the counters grow from those found as `Counted` states; the time is `now` minus that run's start; both flags clear and only run `k` leaves the pending list |
| SortController.RemoveGenerated | frontend/src/components/Sorting.jsx:36-38 | dropping a pending run keeps every other run's snapshot generated |
| SortController.SortingVisualizer.Reset | frontend/src/components/Sorting.jsx:494-497 | the displayed array becomes the saved one, followed by the visualization reset |
| BinaryTrees.GetHeight | frontend/src/components/Tree.jsx:91 | the stored height, which is 0 for an empty tree and the true height when heights are maintained |
| BinaryTrees.GetBalance | frontend/src/components/Tree.jsx:92 | left height minus right height, which lies in [-1, 1] in an AVL tree |
| BinaryTrees.Join | frontend/src/components/Tree.jsx:99-100 | a rebuilt node's height is one more than its taller child's |
| BinaryTrees.RightRotate | frontend/src/components/Tree.jsx:94-102 | `x = y.left` becomes the root and `y` takes `T2` as its left child; the heights are recomputed child first |
| BinaryTrees.LeftRotate | frontend/src/components/Tree.jsx:104-112 | the mirror image: `y = x.right` becomes the root and `x` takes `T2` as its right child |
| BinaryTrees.RightRotateInOrder | frontend/src/components/Tree.jsx:94-102 | a right rotation keeps the in-order sequence |
| BinaryTrees.LeftRotateInOrder | frontend/src/components/Tree.jsx:104-112 | a left rotation keeps the in-order sequence |
| BinaryTrees.RightRotateKeys | frontend/src/components/Tree.jsx:94-102 | a right rotation keeps the key set and search order |
| BinaryTrees.LeftRotateKeys | frontend/src/components/Tree.jsx:104-112 | a left rotation keeps the key set and search order |
| BinaryTrees.RotationShapes | frontend/src/components/Tree.jsx:94-112 | the two shapes a rotation moves between hold the same keys and are search trees together, whatever their stored heights |
| BinaryTrees.InsertBST | frontend/src/components/Tree.jsx:48-57 | `insertBST` as a value: a leaf where the search for the value ends and the same node for an equal key; InsertBSTCorrect and InsertBSTPresent state its properties |
| BinaryTrees.InsertBSTCorrect | frontend/src/components/Tree.jsx:48-57 | insertion adds exactly the value to the key set and keeps search order |
| BinaryTrees.InsertBSTPresent | frontend/src/components/Tree.jsx:48-57 | inserting a value already in a search tree gives the same tree, since equal values are dropped |
| BinaryTrees.InsertAVL | frontend/src/components/Tree.jsx:59-89 | `insertAVL` as a value: an ordered insertion then the height update and rebalancing of each node on the way back up; `None` marks the dereference of a missing grandchild; InsertAVLKeys and AvlInsert state its properties |
| BinaryTrees.Rebalance | frontend/src/components/Tree.jsx:70-86 | the four rotation cases chosen by the balance and by where the value went; RebalanceKeys and SingleRight to DoubleLeft state its properties |
| BinaryTrees.InsertAVLKeys | frontend/src/components/Tree.jsx:59-89 | a successful AVL insertion adds exactly the value and keeps search order |
| BinaryTrees.RebalanceKeys | frontend/src/components/Tree.jsx:70-88 | the four rotation cases keep the keys and search order |
| BinaryTrees.AvlInsert | frontend/src/components/Tree.jsx:59-89 | on an AVL tree, insertion never reaches the missing grandchild and returns an AVL tree that is at most one taller |
| BinaryTrees.LeftGrown | frontend/src/components/Tree.jsx:62-88 | insertion on the left followed by rebalancing gives an AVL tree of the expected height |
| BinaryTrees.RightGrown | frontend/src/components/Tree.jsx:62-88 | the same for insertion on the right |
| BinaryTrees.SingleRight | frontend/src/components/Tree.jsx:73-75 | the left-left case is repaired by one right rotation |
| BinaryTrees.DoubleRight | frontend/src/components/Tree.jsx:79-82 | the left-right case has a grandchild and is repaired by the double rotation |
| BinaryTrees.SingleLeft | frontend/src/components/Tree.jsx:76-78 | the right-right case is repaired by one left rotation |
| BinaryTrees.DoubleLeft | frontend/src/components/Tree.jsx:83-86 | the right-left case has a grandchild and is repaired by the double rotation |
| BinaryTrees.InsertAVLPresent | frontend/src/components/Tree.jsx:59-67 | inserting a present value into an AVL search tree returns it unchanged |
| HeapInsert.HeapifyUp | frontend/src/components/Tree.jsx:120-127 | sifting up from `index` keeps the multiset, changes only the path to the root, and restores the max-heap when `index` was the only violation |
| HeapInsert.SwapUp | frontend/src/components/Tree.jsx:123-125 | one swap with the parent moves the violation up to the parent |
| HeapInsert.SwapUpOrder | frontend/src/components/Tree.jsx:123-125 | after the swap every parent but the new exception dominates its children |
| HeapInsert.Parent | frontend/src/components/Tree.jsx:122 | `Math.floor((index - 1) / 2)` of a positive index is a smaller index whose child it is |
| HeapInsert.InsertHeap | frontend/src/components/Tree.jsx:114-118 | the new heap is one longer, holds the old elements plus the value, changes only the path from the new leaf, and is a max-heap when the old one was |
| HeapInsert.AppendBelow | frontend/src/components/Tree.jsx:115 | appending to a max-heap leaves only the new leaf out of place |
| HeapInsert.RootIsMax | frontend/src/components/Tree.jsx:114-127 | the root of a max-heap holds a maximum |
| Tries.TrieNode.constructor | frontend/src/components/Tree.jsx:129-141 | a new node has no children and ends no word |
| Tries.PathSnoc | frontend/src/components/Tree.jsx:133-136 | following one more character extends the path by the `c` child |
| Tries.GrowsPath | frontend/src/components/Tree.jsx:129-141 | a path that existed still exists, to the same node, once the trie has grown |
| Tries.GrowsByChild | frontend/src/components/Tree.jsx:134 | adding a missing child only grows the trie |
| Tries.GrowsKeepsWords | frontend/src/components/Tree.jsx:129-141 | a growing trie keeps every word it had |
| Tries.Step | frontend/src/components/Tree.jsx:133-136 | one turn of the loop creates `current.children[char]` if missing and moves to it, only adding nodes and children |
| Tries.Descend | frontend/src/components/Tree.jsx:131-138 | the `for` loop over the word ends at the node the whole word leads to, creating missing children and only adding nodes and children |
| Tries.InsertTrie | frontend/src/components/Tree.jsx:129-141 | the same root comes back, or a fresh one for `null`; afterwards the word is in the trie; every old child entry, mark and word remains; new nodes are fresh |
| TreePlatform.TreeVisualizationPlatform.constructor | frontend/src/components/Tree.jsx:5-18 | every tree empty, the binary panel selected, no input |
| TreePlatform.TreeVisualizationPlatform.HandleInsert | frontend/src/components/Tree.jsx:192-198 | blank input changes nothing; otherwise `isAnimating` is set and one more insertion is scheduled with the panel and the text of the moment; no tree changes yet; a second call while animating schedules a second insertion |
| TreePlatform.TreeVisualizationPlatform.FireInsert | frontend/src/components/Tree.jsx:198-226 | a scheduled insertion fires: the panel captured at the click takes its value through that panel's insertion and the other trees are kept; the input clears; `isAnimating` resets; the insertion leaves the pending list |
| TreePlatform.TreeVisualizationPlatform.InsertInto | frontend/src/components/Tree.jsx:202-219 | the `switch` runs the insertion of the captured panel and leaves the other trees alone |
| TreePlatform.TreeVisualizationPlatform.InsertWord | frontend/src/components/Tree.jsx:215-217 | the trie panel takes the raw text as a word without losing old ones |
| TreePlatform.TreeVisualizationPlatform.HandleClear | frontend/src/components/Tree.jsx:229-231 | the selected tree becomes empty and nothing else changes |
| LinkedLists.NodeValue | frontend/src/components/Linkedlist.jsx:37 | the value `parseInt` gives, or else the text when parsing fails or gives 0, is a number exactly when parsing gives a non-zero number, and otherwise the text itself |
| LinkedLists.SafeIndex | frontend/src/components/Linkedlist.jsx:122 | `Math.max(0, Math.min(targetIndex, nodes.length))` lies in `[0, length]` and equals the index when it is in range |
| LinkedLists.InsertAt | frontend/src/components/Linkedlist.jsx:129-131 | the splice puts the node at `i`, with the nodes before it and after it kept in order |
| LinkedLists.InsertRemove | frontend/src/components/Linkedlist.jsx:129-131 | removing the inserted node gives back the list |
| LinkedLists.EndsAreInsertions | frontend/src/components/Linkedlist.jsx:56-119 | the end and beginning updates are insertions at the two ends |
| LinkedLists.Applied | frontend/src/components/Linkedlist.jsx:56-155 | the list each queued animation sets before its relayout: appended or prepended or spliced in at the clamped index; EndsAreInsertions and InsertionEffect state its properties |
| LinkedLists.Relayout | frontend/src/components/Linkedlist.jsx:67-71 | every node keeps its id and value, gets `x = 100 + idx * 120`, and is no longer new |
| LinkedLists.RelayoutStable | frontend/src/components/Linkedlist.jsx:67-71 | laying out twice is laying out once, and the nodes sit 120 apart |
| LinkedLists.LinkedListVisualizer.constructor | frontend/src/components/Linkedlist.jsx:5-12 | one node of value 10, empty input, empty queue, insertion at the end, index 0 |
| LinkedLists.LinkedListVisualizer.ProcessNextAnimation | frontend/src/components/Linkedlist.jsx:24-32 | nothing on an empty queue; otherwise it sets `isAnimating`, drops the head of the queue and applies the head's list update |
| LinkedLists.LinkedListVisualizer.FinishAnimation | frontend/src/components/Linkedlist.jsx:67-80 | the timers at the end of every animation re-lay the list and clear `isAnimating` |
| LinkedLists.LinkedListVisualizer.AddNode | frontend/src/components/Linkedlist.jsx:34-54 | blank input or a running animation changes nothing; otherwise an off-screen new node is queued alone, at the beginning, at the end or at the clamped index, and the input clears |
| LinkedLists.LinkedListVisualizer.Reset | frontend/src/components/Linkedlist.jsx:199-205 | nothing while animating; otherwise the initial list and an empty queue |
| LinkedLists.InsertionEffect | frontend/src/components/Linkedlist.jsx:56-155 | a whole insertion leaves the relaid list with the node at its clamped position and the old nodes in order around it |
| Text.SkipStart | frontend/src/App.jsx:58 | the first position at or after `i` that is not white space |
| Text.SkipEnd | frontend/src/App.jsx:58 | the position after the last one that is not white space |
| Text.Trim | frontend/src/App.jsx:58 | `trim()` as a value; TrimSplits and TrimEmpty and TrimIdempotent state its properties |
| Text.TrimSplits | frontend/src/App.jsx:58 | `trim` cuts white space off both ends and keeps a middle that starts and ends with other characters |
| Text.TrimEmpty | frontend/src/App.jsx:64 | `text.trim()` is empty exactly when the text is blank |
| Text.TrimIdempotent | frontend/src/App.jsx:463-466 | trimming an already trimmed piece changes nothing |
| Text.Lines | frontend/src/App.jsx:102 | `split('\n')` gives at least one piece |
| Text.LinesCorrect | frontend/src/App.jsx:102 | there is one piece more than there are line feeds, no piece holds one, and joining with line feeds gives back the text |
| CodeBlocks.WordEnd | frontend/src/App.jsx:51 | `(\w*)` takes the maximal run of word characters |
| CodeBlocks.FindFence | frontend/src/App.jsx:51 | the lazy `[\s\S]*?` stops at the first closing fence |
| CodeBlocks.MatchAt | frontend/src/App.jsx:51 | a match at `p` spells an opening fence, the language, a line feed, the body and a closing fence, at least 7 characters, within the text |
| CodeBlocks.Exec | frontend/src/App.jsx:55 | `exec` from `lastIndex` finds the leftmost match at or after it, or reports that none exists |
| CodeBlocks.ToBlock | frontend/src/App.jsx:56-61 | the pushed entry: an empty language becomes `plaintext`; the code is the trimmed body; the indices are the match's start and end |
| CodeBlocks.Blocks | frontend/src/App.jsx:55-62 | the blocks of the successive leftmost matches from a position; BlocksAreMatches and BlocksLeftmost and PlacedIncreasing state its properties |
| CodeBlocks.Extracted | frontend/src/App.jsx:49-74 | `extractCodeBlocks` as a value; ExtractCodeBlocks computes it and BlankHasNoBlocks and NoMatchFallback and ExtractedPlaced state its properties |
| CodeBlocks.ExtractCodeBlocks | frontend/src/App.jsx:49-74 | the loop and fallback compute the extraction, with empty text giving no blocks |
| CodeBlocks.ExecAll | frontend/src/App.jsx:55-62 | the `while` loop collects one block per successive leftmost match |
| CodeBlocks.ExecAllStep | frontend/src/App.jsx:55-62 | one turn of the loop moves the search position strictly forward and keeps the collected blocks equal to the matches found so far |
| CodeBlocks.BlocksStep | frontend/src/App.jsx:55-62 | one turn records the match and moves on to its end |
| CodeBlocks.BlocksAreMatches | frontend/src/App.jsx:55-62 | every block is a real match, taken in order, without overlap, within the text, with `lang` defaulting to `plaintext` and trimmed code |
| CodeBlocks.PlacedIncreasing | frontend/src/App.jsx:55-62 | each block ends before the next one starts |
| CodeBlocks.BlocksLeftmost | frontend/src/App.jsx:55-62 | no match starts at a position that lies outside every block, so the blocks miss no match |
| CodeBlocks.BlankHasNoBlocks | frontend/src/App.jsx:49-74 | blank text gives no blocks at all |
| CodeBlocks.NoMatchFallback | frontend/src/App.jsx:64-71 | text with no fenced block and something besides white space becomes one `plaintext` block of the trimmed text spanning it |
| CodeBlocks.ExtractedPlaced | frontend/src/App.jsx:49-74 | every result of the extraction is ordered, non-overlapping and within the text |
| CodeBlocks.FormatAiReview | frontend/src/App.jsx:76-83 | `null` for empty text; otherwise a single section of the whole text and the extracted blocks |
| CodeBlocks.Slice | frontend/src/App.jsx:463-477 | `slice` with in-range bounds is the substring |
| CodeBlocks.Tile | frontend/src/App.jsx:457-483 | the `forEach` loop builds the tiles of the section |
| CodeBlocks.Tiles | frontend/src/App.jsx:457-483 | the prose pieces and code blocks of one section from `lastIndex` on; TilesShowBlocks and TilesProseTrimmed and PiecesCover state its properties |
| CodeBlocks.TileStep | frontend/src/App.jsx:461-475 | the prose before a block then the block itself then the tiles after it are the tiles from the previous position |
| CodeBlocks.PushProse | frontend/src/App.jsx:463-466 | the text before a block is pushed as one prose tile when it is not blank after trimming and not at all otherwise |
| CodeBlocks.CodesOfAppend | frontend/src/App.jsx:457-483 | the code blocks of joined tiles are those of each part |
| CodeBlocks.ProsePieceFacts | frontend/src/App.jsx:464-483 | a prose piece holds no code and is shown trimmed and non-empty |
| CodeBlocks.TilesShowBlocks | frontend/src/App.jsx:457-483 | every code block of the section is shown, once each and in order |
| CodeBlocks.TilesProseTrimmed | frontend/src/App.jsx:457-483 | every prose tile is non-empty and already trimmed |
| CodeBlocks.PiecesCover | frontend/src/App.jsx:457-478 | for ordered in-range blocks, the gaps and the blocks' spans together make up the text from `last` on |
| CodeBlocks.ReviewCovered | frontend/src/App.jsx:457-483 | for any review text, the gaps and spans of its extracted blocks make up the whole text, so nothing is lost or duplicated |
| CodeBlocks.CodeBlockHeight | frontend/src/App.jsx:102-103 | the height lies in [80, 400]; it is 80 exactly for at most 3 lines and 400 exactly for at least 20; in between it is 21 per line |

## Left out

- Timers, `sleep`, the pause polling (`waitForResume`) and every highlighting state (colours, `currentStep`, comparing, swapping, sorted and pivot markers) are display only and are not modelled.
- Inside a run, the sort's `isPaused` is the value captured when the run started, so pausing does not stop a run already going. A run is therefore modelled in two steps: `StartSorting` records it as pending and `CompleteRun` applies its sort. Its intermediate `setArray` frames are left out.
- SortController.SortingVisualizer.CompleteRun: each run's sort is applied at once when it completes. A `reset` or `generateArray` during a run clears `isAnimating`, so a second run can start beside the first; the model keeps each run's own snapshot, algorithm and start time, but the interleaving of the two runs' `setArray` frames and `updateStats` calls is not modelled, nor are counter updates that a mid-run reset erases. A run that never calls `setArray` (an already sorted array under bubble or selection sort, which publish only when they swap) leaves the display as it is in the source, while the model publishes its sorted copy, which can differ if the display was changed meanwhile.
- Bubble, selection and insertion sort work on a copy and publish it with `setArray`. The other sorts change the run's copy in place. Both end with the same displayed array, so the model sorts one work array in place.
- `Math.random` is the `values` parameter, restricted by `Generated` to the range it can produce. `Date.now` is the `now` parameter. `parseInt` results are the `number` and `parsed` parameters; a `NaN` reaching the trees is not modelled.
- The counting, radix and bucket sorts require non-negative input. The visualizer only ever holds values from 10 to 409, and negative values would index arrays below zero in the source.
- SortController.Throws: the JavaScript array length limit is not modelled. Counting sort on a maximum of 2^32 - 1 or more would throw a `RangeError` at `new Array(max + 1)`; the visualizer only ever holds values up to 409, where it cannot happen.
- BucketSorting.BucketSort: the bucket index `Math.floor((v / max) * (n - 1))` is computed in floating point in the source. The model uses the exact integer `floor(v * (n - 1) / max)`, which can differ from the floating-point result by rounding.
- BucketSorting.SortSeq: the engine's `Array.prototype.sort` is modelled as insertion into a sorted run. Only its result, a sorted permutation, matters here.
- HeapSorting.HeapSort: only bounds on its statistics are proved (at least n-1 swaps, counters never decrease), not exact counts.
- QuickSorting.QuickSort: the comparison count is bounded by m(m-1)/2, not computed exactly.
- SimpleSorts.SelectionSort: the swap count is bounded by n-1; the exact count (the passes whose minimum is not already in place) is not stated.
- MergeSorting.MergeSort: comparisons and swaps are proved equal to each other, not computed as a function of the input.
- The array state `array` is named `displayArray`, because `array` is a Dafny keyword.
- Layout and drawing are not modelled: `calculatePositions`, `calculateTriePositions`, `calculateHeapPositions`, `getBarHeight` and every JSX render. The traversal highlighting of the linked list is not modelled either.
- The red-black, segment and Fenwick tree panels have no operations in the source, so inserting into them changes nothing. The Find button and `searchValue` are display only.
- TreePlatform.TreeVisualizationPlatform.FireInsert: the `setTimeout` of each `handleInsert` call is its own step, taken in any order by its index in `pending`; the delay itself is not modelled.
- LinkedLists.LinkedListVisualizer.FinishAnimation: the nested timers of each animation (300, 500, 800 and 1000 ms) are merged into this one step. The `useEffect` that calls `processNextAnimation` is taken to have fired before the next click.
- Tries.InsertTrie: only one direction of the word set is proved. The word is added and old words are kept, but the model does not prove that no other word appears.
- `extractCodeBlocks` on `null` or `undefined` is not modelled; the text is always a string, empty or not.
- JavaScript strings are UTF-16 code units and Dafny strings are sequences of characters, so text with characters outside the Basic Multilingual Plane measures differently.
- The network calls to the compiler and review back ends, the clipboard, the Monaco editor, themes and languages in `App.jsx` are outside the modelled logic.
