# AlgoLib heap engine, priority queue, sorts and k-way merge in Dafny

This project models the core of the AlgoLib algorithms library and proves properties of the model.
It covers:

- **the static `Heap` class** — in-place routines over a list and an explicit heap size:
  - `BuildMaxHeap`/`BuildMinHeap`;
  - the recursive `MaxHeapify`/`MinHeapify`;
  - `ExtractMax`/`ExtractMin`;
  - `MaxIncrease`/`MinDecrease`;
  - `MaxInsert`/`MinInsert`;
  - the pruning searches `MaxContains`/`MinContains`;
  - the index helpers `HeapParent`/`HeapLeft`/`HeapRight`.
- **`PriorityQueue<T>`** — a backing list, a logical size (`Count`) and a `PriorityOrder`, driving the heap engine.
- **`Sorter.HeapSort`** (ascending or descending) and **`Sorter.InsertionSort`**.
- **`Merger.SortedMerge`** — a k-way merge that repeatedly yields the lowest current head of its sources.

## Elements and the list

- Elements are `Elem = Null | Val(v)` with integer keys.
- `null` sorts below every value. This is the order that `CompareTo` and the explicit null tests of the library give.
- The `IList<T>` that the routines mutate is the class `Elements.ElemList`, with one field `items: seq<Elem>`.
- Exceptions are the datatype `Exn`.
- An operation that can throw after it has already changed the list reports both the new contents and the exception, as an `Effect`.

## One method per Max/Min pair

Each Max/Min pair of `Heap.cs` is one method taking the `PriorityOrder`. The two asymmetries of the source are kept:

- **Heapify's child test.** A max-heap never picks a null child; a min-heap always picks one. This is the predicate `Picks`.
- **The climb test of the key change.** This is the predicate `Rises`.

## Three modules for the heap

- **`HeapOrder`** holds the pure core:
  - the index arithmetic;
  - the heap-order predicates;
  - functions (`SiftDown`, `Build`, `AfterExtract`, `SiftUp`, `IncreaseKeyEffect`, `InsertEffect`) saying what each in-place routine leaves in the list;
  - the lemmas about those functions.
- **`Heap`** holds the in-place methods. Each method's `ensures` ties the new list to the matching function of `HeapOrder`.
- **`PriorityQueues`** holds the class `PriorityQueue` with:
  - `order`;
  - `data`;
  - `heapSize` (`Count()`);
  - the ghost length of the backing list, `Size()`.

## The source's behaviour, modelled as written

The model follows the code, including where it departs from its own comments and exception messages, or from the textbook binary heap:

- **`HeapParent(i)` is `i >> 1`.** This does not invert `HeapLeft`/`HeapRight` (that would be `(i - 1) / 2`). So `MaxIncrease`/`MinDecrease` climb a chain that is not the ancestor chain. An insertion can then break the heap order (`HeapOrder.InsertBreaksHeapOrder`).
- **The key-change guards are the reverse of their messages.**
  - `MaxIncrease` throws when the item is greater than the current key.
  - `MinDecrease` throws when the item is smaller than the current key.
  - `Enqueue` compensates by handing the maximum sentinel to `MaxInsert` and the minimum to `MinInsert`.
- **`MaxInsert`/`MinInsert` write the sentinel at `heapSize + 1` but run the key change at slot `heapSize`.** Once a `Dequeue` has left a stale slot, the guard compares the item with that stale value (`PriorityQueues.StaleSlotScenario`).
- **`Peek` reads slot 0 whatever `Count` is.** It fails only when the backing list is empty.
- **`Clear` empties the backing list and keeps `Count`.**
- **`Enqueue` and `Dequeue` change `Count` before the heap call runs.** So the change stands even when that call throws. `MaxInsert`/`MinInsert` also grow the list before the guard can throw.

## Model

| member | source | states |
|---|---|---|
| Elements.CompareTo | src/AlgoLib/AlgoLib.UnitTests/Structures/PriorityQueueTests.cs:191-196 | a non-null element compares 0 exactly with an equal element, negative exactly with a greater one, positive exactly with a smaller one or with null (null is below every value) |
| HeapOrder.HeapParent | src/AlgoLib/AlgoLib/Structures/Heap.cs:388-391 | the parent formula i >> 1 gives the p with 2p <= i <= 2p + 1: the left child 2p + 1 maps back to p, the right child 2p + 2 does not |
| HeapOrder.HeapLeft | src/AlgoLib/AlgoLib/Structures/Heap.cs:393-396 | the left child lies past its node, and the textbook parent (i - 1) / 2 maps it back to the node |
| HeapOrder.HeapRight | src/AlgoLib/AlgoLib/Structures/Heap.cs:398-401 | the right child is the slot after the left child, and (i - 1) / 2 maps it back to the node |
| HeapOrder.Pick | src/AlgoLib/AlgoLib/Structures/Heap.cs:82-96 | the slot Heapify chooses is the node itself or one of its children inside the heap size |
| HeapOrder.PickDominates | src/AlgoLib/AlgoLib/Structures/Heap.cs:82-96 | the chosen slot is at least as extreme as the node and as each in-range child, and it differs from the node only when it won the strict test |
| HeapOrder.SiftDown | src/AlgoLib/AlgoLib/Structures/Heap.cs:80-142 | the heapify result is a permutation of the list, of the same length, and slots at or past the heap size are untouched |
| HeapOrder.SiftDownRestores | src/AlgoLib/AlgoLib/Structures/Heap.cs:97-105 | when the list is ordered except below the node, the sift leaves it ordered |
| HeapOrder.SiftDownRestoresSubtree | src/AlgoLib/AlgoLib/Structures/Heap.cs:97-105 | when the subtree at r is ordered except below a node of it, the sift from that node leaves the whole subtree at r ordered |
| HeapOrder.SiftDownHeapifies | src/AlgoLib/AlgoLib/Structures/Heap.cs:80-142 | MaxHeapify/MinHeapify's promise: when the subtrees at 2i + 1 and 2i + 2 are heaps, the sift from i leaves the subtree at i a heap |
| HeapOrder.SiftDownNoop | src/AlgoLib/AlgoLib/Structures/Heap.cs:85-97 | the strict comparisons make heapify on a subtree that already is a heap change nothing |
| HeapOrder.SiftDownLocal | src/AlgoLib/AlgoLib/Structures/Heap.cs:97-105 | heapify only moves slots inside the subtree of the node |
| HeapOrder.BuildFrom | src/AlgoLib/AlgoLib/Structures/Heap.cs:35-38 | the build loop keeps the length and the multiset of the list |
| HeapOrder.Build | src/AlgoLib/AlgoLib/Structures/Heap.cs:32-39 | BuildMaxHeap/BuildMinHeap keep the length and the multiset of the list |
| HeapOrder.LeavesAreHeap | src/AlgoLib/AlgoLib/Structures/Heap.cs:35 | the slots from heapSize / 2 up have no children, so the build loop can start at heapSize / 2 - 1 |
| HeapOrder.BuildIsHeap | src/AlgoLib/AlgoLib/Structures/Heap.cs:32-39 | BuildMaxHeap/BuildMinHeap leave a heap over the whole list that is a permutation of the input |
| HeapOrder.BuildNoop | src/AlgoLib/AlgoLib/Structures/Heap.cs:63-70 | building over a list that is already a heap leaves it unchanged |
| HeapOrder.HeapRootDominates | src/AlgoLib/AlgoLib/Structures/Heap.cs:156 | the root of a heap is at least as extreme as every slot below the heap size, so the extracted root is the max (min) |
| HeapOrder.AfterExtract | src/AlgoLib/AlgoLib/Structures/Heap.cs:152-178 | the extraction keeps the length and holds the old elements with the root overwritten by slot m |
| HeapOrder.AfterExtractHeap | src/AlgoLib/AlgoLib/Structures/Heap.cs:154-158 | after an extraction from a heap of size m + 1, the first m slots are a heap holding the old elements minus one copy of the root, and the slots from m on are untouched |
| HeapOrder.AfterExtractRemovesRoot | src/AlgoLib/AlgoLib/Structures/Heap.cs:156-158 | on any list the extraction removes one copy of the root from the live slots and leaves the slots from m on as they were |
| HeapOrder.AfterExtractWhole | src/AlgoLib/AlgoLib/Structures/Heap.cs:154-158 | extracting from a heap over the whole list leaves a heap, one slot shorter, holding everything but the root |
| HeapOrder.ExtractMonotone | src/AlgoLib/AlgoLib/Structures/PriorityQueue.cs:57-64 | the root after an extraction is no more extreme than the one extracted, so successive dequeues are non-increasing (Max) or non-decreasing (Min) |
| HeapOrder.SiftUp | src/AlgoLib/AlgoLib/Structures/Heap.cs:187-197 | the climb loop keeps the length and the multiset |
| HeapOrder.SiftUpAlongChain | src/AlgoLib/AlgoLib/Structures/Heap.cs:186-197 | the climb only changes slots on the chain i, i >> 1, ..., 0, and the climbing item ends on that chain |
| HeapOrder.IncreaseKeyEffect | src/AlgoLib/AlgoLib/Structures/Heap.cs:180-218 | a throw leaves the list unchanged; success needs a non-null item and an index inside the list, and leaves the list a permutation of the old one with that slot replaced by the item |
| HeapOrder.IncreaseKeyMoves | src/AlgoLib/AlgoLib/Structures/Heap.cs:180-198 | a key change that does not throw had a valid index, keeps the length, holds the old elements with the slot replaced by the item, and touches only the chain |
| HeapOrder.SiftUpRoot | src/AlgoLib/AlgoLib/Structures/Heap.cs:187-197 | when the root dominates the chain, a non-null item climbing from slot i leaves the more extreme of the old root and the item at the root |
| HeapOrder.InsertEffect | src/AlgoLib/AlgoLib/Structures/Heap.cs:228-256 | a size below -1 throws without change; from -1 on, the sentinel is written at slot heapSize + 1 when that slot exists (the list keeps its length) and appended when it does not (the list grows by one), before the key change can throw (at -1 it always does); success needs 0 <= heapSize <= the list length |
| HeapOrder.InsertAppends | src/AlgoLib/AlgoLib/Structures/Heap.cs:228-237 | with no stale slots the list grows by one; the insert succeeds exactly when the item is non-null and no more extreme than the sentinel; on failure the sentinel stays appended; on success the multiset gains the item, slots off the chain stay, and the item lands on the chain |
| HeapOrder.InsertChecksStaleSlot | src/AlgoLib/AlgoLib/Structures/Heap.cs:231-236 | with stale slots the sentinel is written one slot past the heap size and the guard compares the item with the stale value at the heap size |
| HeapOrder.InsertRoot | src/AlgoLib/AlgoLib/Structures/Heap.cs:228-237 | a successful insert into a list whose root dominates leaves the more extreme of the old root and the item at the root |
| HeapOrder.InsertKeepsRoot | src/AlgoLib/AlgoLib/Structures/Heap.cs:228-237 | when slot 0 dominates every slot before an insert at the end, the root after a successful insert dominates every slot |
| HeapOrder.InsertBreaksHeapOrder | src/AlgoLib/AlgoLib/Structures/Heap.cs:388-401 | HeapParent(HeapRight(i)) is i + 1, not i; inserting 5 into the max-heap [10, 1, 9, 0] succeeds and leaves [10, 1, 9, 0, 5], which is not a heap |
| Heap.Heapify | src/AlgoLib/AlgoLib/Structures/Heap.cs:80-142 | MaxHeapify/MinHeapify leave SiftDown of the list: a permutation, slots outside the subtree or past the size unchanged; when the subtrees at both children were heaps, the subtree at the node is a heap; when the list was ordered from the next node on, it is ordered from the node on |
| Heap.BuildHeap | src/AlgoLib/AlgoLib/Structures/Heap.cs:32-70 | the list becomes a heap over its whole length and a permutation of the input, and it is unchanged when it already was a heap |
| Heap.Extract | src/AlgoLib/AlgoLib/Structures/Heap.cs:152-178 | a size of 0 or less throws IndexOutOfRange and a size past the list throws, both without change; otherwise the old root is returned, and on a heap it dominates every live slot and the rest is a heap one smaller without the root, later slots untouched |
| Heap.IncreaseKey | src/AlgoLib/AlgoLib/Structures/Heap.cs:180-218 | MaxIncrease/MinDecrease throw Argument for a null item or one more extreme than the current key and throw for a bad index; otherwise the slot takes the item and the item climbs along the i >> 1 chain, nothing else changes |
| Heap.Insert | src/AlgoLib/AlgoLib/Structures/Heap.cs:228-256 | the list is left as InsertEffect says; with no stale slots it grows by one, succeeds exactly when the item is non-null and no more extreme than the sentinel, and then gains exactly the item |
| Heap.ChildPruned | src/AlgoLib/AlgoLib/Structures/Heap.cs:305 | on a max-heap or a null-free min-heap, a child that neither matches the item nor compares toward it has no copy of the item below it |
| Heap.ChildrenExact | src/AlgoLib/AlgoLib/Structures/Heap.cs:275-319 | on a max-heap, or a null-free min-heap, the search below a node answers exactly whether a child's subtree holds the item |
| Heap.ContainsExact | src/AlgoLib/AlgoLib/Structures/Heap.cs:258-385 | MaxContains over a max-heap, and MinContains over a null-free min-heap, answer true exactly when the item is among the first heapSize slots |
| Heap.Contains | src/AlgoLib/AlgoLib/Structures/Heap.cs:258-385 | on any list, a true answer means some slot in [index, heapSize) holds the item, and the search fails (ArgumentOutOfRange) only when heapSize exceeds the list |
| Heap.ContainsChildren | src/AlgoLib/AlgoLib/Structures/Heap.cs:275-319 | on any list, a true answer from below a node means a slot after it, inside heapSize, holds the item, and a failure means heapSize exceeds the list |
| Heap.HeapifyScenario | src/AlgoLib/AlgoLib.UnitTests/Structures/HeapTests.cs:27-33 | MaxHeapify at node 1 of 45, 25, 4, 88, 96, 18, 101, 7 leaves slot 1 at least slots 3 and 4 |
| Heap.MinContainsMissesBelowNull | src/AlgoLib/AlgoLib/Structures/Heap.cs:344-347 | MinContains never descends below a null child, so on the min-heap [null, null, null, 3] it misses 3 |
| PriorityQueues.PriorityQueue.constructor | src/AlgoLib/AlgoLib/Structures/PriorityQueue.cs:21-25 | a new queue has the given order, an empty list and Count 0, and is a (trivial) heap |
| PriorityQueues.PriorityQueue.FromCollection | src/AlgoLib/AlgoLib/Structures/PriorityQueue.cs:27-36 | the queue copies the collection, sets Count to its length, and holds a heap that is a permutation of it, so slot 0 dominates every live slot |
| PriorityQueues.PriorityQueue.Clear | src/AlgoLib/AlgoLib/Structures/PriorityQueue.cs:44-47 | the backing list becomes empty and Count stays |
| PriorityQueues.PriorityQueue.Contains | src/AlgoLib/AlgoLib/Structures/PriorityQueue.cs:49-55 | a true answer names a live slot holding the item; on a healthy max queue or null-free min queue the answer is exact |
| PriorityQueues.PriorityQueue.Dequeue | src/AlgoLib/AlgoLib/Structures/PriorityQueue.cs:57-64 | an empty queue throws InvalidOperation without change; otherwise Count drops by one, the list keeps its length, and on a healthy queue the extreme is returned, the queue stays healthy and holds the rest |
| PriorityQueues.PriorityQueue.Enqueue | src/AlgoLib/AlgoLib/Structures/PriorityQueue.cs:66-72 | Count rises by one even when the heap call throws; with no stale slots Count equals the list length afterwards, success means the item is non-null and within the sentinel, and the item is added; when slot 0 dominated every live slot before, a successful Enqueue leaves at the root the more extreme of the old root and the item, and that root dominates every live slot again |
| PriorityQueues.SentinelFor | src/AlgoLib/AlgoLib/Structures/PriorityQueue.cs:66-72 | Enqueue hands MaxInsert maxItem and MinInsert minItem, so every item between minItem and maxItem passes the insert guard against the sentinel |
| PriorityQueues.PriorityQueue.Count | src/AlgoLib/AlgoLib/Structures/PriorityQueue.cs:108-111 | Count is the logical size, which the Enqueue, Dequeue, Clear and TrimExcess rows track |
| PriorityQueues.PriorityQueue.Peek | src/AlgoLib/AlgoLib/Structures/PriorityQueue.cs:74-77 | slot 0 is returned whatever Count is, an empty list throws, and on a healthy non-empty queue the value dominates every live slot |
| PriorityQueues.PriorityQueue.TrimExcess | src/AlgoLib/AlgoLib/Structures/PriorityQueue.cs:79-86 | only trailing slots go, down to Count; a list shorter than Count is left alone; a healthy queue stays healthy with Count equal to the list length |
| PriorityQueues.RootIsExtreme | src/AlgoLib/AlgoLib/Structures/PriorityQueue.cs:74-77 | the element that dominates a heap's live slots is the one at its root |
| PriorityQueues.TopOfBuild | src/AlgoLib/AlgoLib/Structures/PriorityQueue.cs:27-36 | a heap built over a collection has the collection's extreme at its root |
| PriorityQueues.TopTwo | src/AlgoLib/AlgoLib.UnitTests/Structures/PriorityQueueTests.cs:42-55 | a heap built over a collection yields its extreme and then, after one extraction, the runner-up |
| PriorityQueues.SampleMaxTopTwo | src/AlgoLib/AlgoLib.UnitTests/Structures/PriorityQueueTests.cs:43-55 | a max-heap over 45, 25, 4, 88, 96, 18, 101, 7 yields 101 and then 96 |
| PriorityQueues.SampleMinTopTwo | src/AlgoLib/AlgoLib.UnitTests/Structures/PriorityQueueTests.cs:28-40 | a min-heap over the same values yields 4 and then 7 |
| PriorityQueues.DequeueScenario | src/AlgoLib/AlgoLib.UnitTests/Structures/PriorityQueueTests.cs:12-55 | through the queue's methods, Peek and Dequeue give 101 then 96 (Max) or 4 then 7 (Min), and Count ends at 6 |
| PriorityQueues.EnqueueScenario | src/AlgoLib/AlgoLib.UnitTests/Structures/PriorityQueueTests.cs:57-123 | enqueuing any 32-bit item with the int bounds as sentinels succeeds, Count becomes 9, and the next Dequeue gives the more extreme of the item and 101 (Max) or 4 (Min) |
| PriorityQueues.ClearScenario | src/AlgoLib/AlgoLib/Structures/PriorityQueue.cs:44-77 | after Clear, Count stays 8 over an empty list; Peek throws, and Dequeue throws inside the extraction yet lowers Count to 7 |
| PriorityQueues.StaleSlotRejects | src/AlgoLib/AlgoLib/Structures/Heap.cs:228-237 | after one extraction from an eight-element max-heap of values up to 101, inserting 102 at heap size 7 fails its guard against the stale slot and still leaves nine slots |
| PriorityQueues.StaleSlotFromInput | src/AlgoLib/AlgoLib/Structures/Heap.cs:154-158 | the slot an extraction leaves behind holds one of the input elements |
| PriorityQueues.StaleSlotScenario | src/AlgoLib/AlgoLib/Structures/PriorityQueue.cs:57-72 | on the sample max queue, Dequeue then Enqueue(102) throws Argument while Count returns to 8 and the list has 9 slots |
| Sorter.HeapOrderFor | src/AlgoLib/AlgoLib/Sorting/HeapSort.cs:27-30 | HeapSort builds a max-heap for Ascending and a min-heap for Descending: b may sit above a in that heap exactly when a comes no later than b in the requested order |
| Sorter.SortedPermutationUnique | src/AlgoLib/AlgoLib.UnitTests/Sorting/InsertionSortTests.cs:14-23 | two sorted permutations of one list are equal, so a sort's output is determined by its input |
| Sorter.HeapSortRound | src/AlgoLib/AlgoLib/Sorting/HeapSort.cs:31-43 | one round leaves a heap one slot smaller, the old root in slot index, and every heap slot holding an old heap element that the old root dominates |
| Sorter.SortedAboveStep | src/AlgoLib/AlgoLib/Sorting/HeapSort.cs:34-42 | moving the root behind the heap puts one more slot in place: every slot from index on dominates every slot before it |
| Sorter.HeapSortStep | src/AlgoLib/AlgoLib/Sorting/HeapSort.cs:31-43 | one round keeps the loop invariant: heap prefix, sorted suffix dominating the prefix, same multiset |
| Sorter.MoveRootBehind | src/AlgoLib/AlgoLib/Sorting/HeapSort.cs:33-42 | the swap and heapify of one round keep the loop invariant with one slot fewer in the heap |
| Sorter.HeapSort | src/AlgoLib/AlgoLib/Sorting/HeapSort.cs:23-44 | the list ends ascending (nulls first) for Ascending and descending for Descending, is a permutation of the input, and lists of length 0 or 1 are unchanged |
| Sorter.InsertionRound | src/AlgoLib/AlgoLib/Sorting/InsertionSort.cs:20-32 | one outer round extends the ascending prefix by one slot and keeps the multiset |
| Sorter.RoundPermutes | src/AlgoLib/AlgoLib/Sorting/InsertionSort.cs:22-31 | moving the key down past the shifted run keeps the multiset |
| Sorter.ShiftGreater | src/AlgoLib/AlgoLib/Sorting/InsertionSort.cs:24-30 | the inner loop moves up exactly the run below the key that is greater than it, stopping at a null or an element at most the key, and leaves all other slots alone |
| Sorter.InsertionSort | src/AlgoLib/AlgoLib/Sorting/InsertionSort.cs:16-33 | the list ends ascending with nulls first, is a permutation of the input, and lists of fewer than two elements are unchanged |
| Sorter.SortsAgree | src/AlgoLib/AlgoLib/Sorting/InsertionSort.cs:16-33 | HeapSort (ascending) and InsertionSort give the same list on every input: its sorted permutation |
| Sorter.HeapSortBothWays | src/AlgoLib/AlgoLib.UnitTests/Sorting/HeapSortTests.cs:28-41 | sorting a list ascending and then the result descending gives sorted permutations of the input |
| Sorter.HeapSortScenario | src/AlgoLib/AlgoLib.UnitTests/Sorting/HeapSortTests.cs:12-25 | the sample sorts to 4, 7, 18, 25, 45, 88, 96, 101 and back to the reverse |
| Sorter.InsertionSortScenario | src/AlgoLib/AlgoLib.UnitTests/Sorting/InsertionSortTests.cs:12-24 | the sample sorts to 4, 7, 18, 25, 45, 88, 96, 101 |
| Sorter.NullsScenario | src/AlgoLib/AlgoLib.UnitTests/Sorting/InsertionSortTests.cs:59-73 | both sorts turn 43, null, 23, null into null, null, 23, 43 |
| Merger.RestAtStart | src/AlgoLib/AlgoLib/Merging/SortedMerge.cs:18-27 | before the first MoveNext every element of every source is still to yield |
| Merger.ScanLow | src/AlgoLib/AlgoLib/Merging/SortedMerge.cs:36-51 | the scan reports -1 exactly when no source has a value, else a source that has one |
| Merger.ScanLowIsLowest | src/AlgoLib/AlgoLib/Merging/SortedMerge.cs:43-48 | the chosen head is at most every current head; a non-null choice is strictly below the heads of earlier sources (ties go to the first source); a null choice has only non-null heads after it |
| Merger.RestAdvance | src/AlgoLib/AlgoLib/Merging/SortedMerge.cs:57 | advancing a source takes exactly its head out of what is still to yield |
| Merger.MergeFrom | src/AlgoLib/AlgoLib/Merging/SortedMerge.cs:33-61 | from any cursor positions the merge yields exactly what the sources still hold, each element once |
| Merger.Merge | src/AlgoLib/AlgoLib/Merging/SortedMerge.cs:10-62 | the merge yields every element of every source once: the multiset union, of the total length |
| Merger.MergeAscends | src/AlgoLib/AlgoLib/Merging/SortedMerge.cs:36-60 | when every source ascends, the merge ascends (nulls first) |
| Merger.MergeIsSortedUnion | src/AlgoLib/AlgoLib/Merging/SortedMerge.cs:33-61 | the merge of ascending sources is the one ascending arrangement of their union |
| Merger.MergeOfTwo | src/AlgoLib/AlgoLib/Merging/SortedMerge.cs:33-61 | the same for two ascending sources |
| Merger.FindLowest | src/AlgoLib/AlgoLib/Merging/SortedMerge.cs:36-51 | the for loop with its null and CompareTo tests finds ScanLow's index and that source's head |
| Merger.FirstMoves | src/AlgoLib/AlgoLib/Merging/SortedMerge.cs:22-27 | after the first MoveNext on every source, each flag says whether that source is non-empty |
| Merger.AdvanceRound | src/AlgoLib/AlgoLib/Merging/SortedMerge.cs:56-60 | advancing the lowest source and yielding its head keeps the flags in step, keeps the output a prefix of the merge, and leaves less to yield |
| Merger.SortedMerge | src/AlgoLib/AlgoLib/Merging/SortedMerge.cs:10-62 | an empty sources array throws ArgumentNull; otherwise the loop yields exactly the merge, including nothing when every source is empty |
| Merger.MergeDistinctSources | src/AlgoLib/AlgoLib.UnitTests/Merging/SortedMergeTests.cs:12-27 | merging 1, 3, 6, 102, 105, 230 with 101, 103, 112, 155, 231 yields the eleven values in strictly ascending order |
| Merger.MergeNullSources | src/AlgoLib/AlgoLib.UnitTests/Merging/SortedMergeTests.cs:29-51 | merging null, 43 with null, 23 yields null, null, 23, 43 |
| Merger.MergeScenario | src/AlgoLib/AlgoLib.UnitTests/Merging/SortedMergeTests.cs:12-51 | through SortedMerge itself: the eleven values ascending, the four with nulls first, and ArgumentNull for no sources |

## Left out

- Element types are integers with one bottom `null`. The generic `IComparable`, the `double`-keyed test classes (`Job`, `MergeSortTestData`) and the `DateTime` test are not modelled, because their keys are floating point, strings or clock readings.
- Integers are unbounded. `Count` cannot overflow 32 bits in the model; `EnqueueScenario` restricts its item to the 32-bit range because the sentinels are `int.MinValue` and `int.MaxValue`.
- The capacity hint of `PriorityQueue(initialCapacity, order)` has no observable effect; that constructor is the empty one.
- `ToArray`, `GetEnumerator`, `CopyTo`, `IsSynchronized` and `SyncRoot` are collection plumbing and are not modelled.
- `Count` is the function `PriorityQueue.Count()`. The `Size` the tests read is not defined by the class; it is the ghost `PriorityQueue.Size()`, the length of the backing list.
- A `null` list passed to `InsertionSort`, a `null` sources array, and a `null` source inside it have no counterpart: `ElemList` and the sources are never null. An empty sources array throws `ArgumentNull`, like a null one.
- SortedMerge's laziness is not modelled. The merge is computed whole, so the exception that C# defers to the first enumeration is returned at the call.
- Merger.SortedMerge: does not state that each source's elements keep their relative order in the output (that each source is a subsequence of the result). For ascending sources the ascent of the output (`Merger.MergeAscends`) already fixes the order of unequal elements, and equal integer keys are indistinguishable; for sources that do not ascend the order is observable and is left unstated.
- Sorter.InsertionSort: stability is not stated. Equal integer keys are indistinguishable, so the order among them cannot be observed.
- Heap.ContainsExact: exactness is claimed for min-heaps only when they are null-free. `MinContains` does not look below a null child and can miss an item (`Heap.MinContainsMissesBelowNull`).
- PriorityQueues.PriorityQueue.Enqueue: does not state that the heap order survives. It does not, because the climb uses `i >> 1` (`HeapOrder.InsertBreaksHeapOrder`). The contract states the new root, that it again dominates every live slot, the added item and the Count.
- Heap.Insert: the multiset is stated only when there are no stale slots. With stale slots the sentinel overwrites a slot past the heap and the guard reads the stale value; `HeapOrder.InsertChecksStaleSlot` states that case.
- The list indexer's `ArgumentOutOfRangeException` stands for every failing index read; the model does not distinguish the exception types .NET would raise there.
- Heap.Heapify, Heap.Contains, Heap.ContainsChildren: the node index is a `nat`, and Heapify requires the heap size to be at most the list length. The public C# methods take an `int` index and any size. The `ArgumentOutOfRangeException` that a negative index raises at the first child read, and the one Heapify raises when the heap size runs past the list, are not modelled. Every caller in the library (BuildHeap, Extract, HeapSort, PriorityQueue.Contains) stays within these bounds.
