# A verified model of the SGI STL under headers/cpp

The Dafny files here model the data structures and algorithms of `headers/cpp` whose
correctness is least obvious from their text, and prove what they promise. They follow the
source's own form: what it does in place on arrays, nodes and fields is done in place here,
by methods that are proved against functions of sequences, maps and trees.

- **Ropes** (`RopeTree`, `RopeForest`, `RopeStore`, `RopeBalance`, `RopeDepth`,
  `RopeOperations`, `RopeSharing`, `RopeProgram`, `RopeIterator`, `RopePieces`). A rope is a
  tree of reference-counted nodes that several ropes share. `Tree(nodes, n)` is the tree a node
  stands for, and `Text()` the characters of a tree. The invariant of a `Store` says, among
  other things, that each count is the number of references from outside (`roots`) plus those
  from other nodes, that sizes are exact, and that a cached flattened copy is the text of its
  node. `Later` relates a store to a later one in which no node stands for a different tree;
  only the in-place operations of `RopeSharing` break it, and for them it is proved that every
  other reference from outside still stands for the same text. `RopeForest` has what
  concatenation and rebalancing compute, as functions of trees, marks included, and `RopeDepth`
  how deep the results are. `Program` is any number of ropes over one store.
- **Sorting** (`Ordering`, `Insertion`, `Selection`, `Merging`, `Heap`, `Introsort`,
  `StableSorting`, `AdaptiveSorting`), **rotation** (`Rotation`, `CycleRotation`), **stable
  partition** (`Partitioning`) and **permutations** (`Permutations`) on arrays of any element
  type, under any strict weak order in the sense of section 25.3 of ISO/IEC 14882:1998.
  Elements may be equivalent without being equal, so stability has a meaning; `SortOf` is
  proved to be the one sorted arrangement that is stable.
- **The pool allocator** (`PoolAllocator`): free lists threaded through the free blocks, an
  unused piece of memory, and `malloc` behind it, which may fail whenever it likes.
- **Containers**: the list and its merge sort (`ListRings`, `ListSorting`), the hash table
  (`HashTable`), the deque (`DequeNodes`, `Deque`) and the bit vector (`BitVector`, `Ranges`).
  Each of the last three, like ropes and the allocator, has a theorem over every run of its
  operations.

## Model

| member | source | states |
|---|---|---|
| RopeTree.SizeIsTextLength | headers/cpp/stl_rope.h:354-390 | in every well-formed tree the size field is the length of the text, and no node is empty |
| RopeTree.MinLenTable | headers/cpp/ropeimpl.h:1061-1076 | the recursively defined `MinLen` has the 46 entries of the table |
| RopeStore.GrowthInPlace | headers/cpp/stl_rope.h:542-556 | a leaf that grows within its capacity keeps the rounded size with which its memory is freed later |
| RopeStore.TreeKept | headers/cpp/stl_rope.h:372-390 | from one store to a later one, a node that is still there stands for the same tree, marks included |
| RopeStore.TreeOutside | headers/cpp/ropeimpl.h:405-437 | changing nodes that no other node refers to changes no other tree |
| RopeStore.Added | headers/cpp/stl_rope.h:1427-1471 | a new node that takes over references to its children keeps counts, shapes and copies right |
| RopeStore.Recounted | headers/cpp/stl_rope.h:502-508 | one reference more or less, while others remain, keeps the invariant |
| RopeStore.Freed | headers/cpp/ropeimpl.h:326-365 | removing a node with one reference and passing on its own references keeps the invariant |
| RopeStore.Store.Unreference | headers/cpp/stl_rope.h:502-505 | giving up one reference, with all the freeing this may set off, leaves every remaining tree as it was |
| RopeStore.Store.FreeTree | headers/cpp/ropeimpl.h:326-365 | the recursive release of a node terminates and leaves every remaining tree as it was |
| RopeStore.Store.NewLeaf | headers/cpp/stl_rope.h:1427-1437 | a new leaf with one reference, all else unchanged |
| RopeStore.Store.NewSubstring | headers/cpp/stl_rope.h:1461-1472 | a substring node adds a reference to its base, which is a leaf or a function and never a substring |
| RopeStore.Store.NewConcatenation | headers/cpp/stl_rope.h:1438-1449 | a concatenation takes over two references, with the sum of the sizes and one more than the larger depth |
| RopeStore.Store.MarkBalanced | headers/cpp/stl_rope.h:1576-1582 | the mark is set only when the size allows the depth; the tree of the node is the same with the mark at its root |
| RopeStore.RemarkedBelow | headers/cpp/stl_rope.h:1576-1582 | marking a node changes no tree below it |
| RopeStore.LaterRemarked | headers/cpp/stl_rope.h:1576-1582 | marking a node that an earlier state did not have, or had marked, leaves all trees of that state as they were |
| RopeBalance.NoRebalanceWhenRoughlyBalanced | headers/cpp/ropeimpl.h:442-476 | a roughly balanced size and depth within max_size() never meet the rebalancing condition |
| RopeBalance.InsertStep | headers/cpp/ropeimpl.h:1161-1179 | a piece of the depth that merging gives either fits the bucket or satisfies the insertee's bound one level up |
| RopeBalance.SweepReady | headers/cpp/ropeimpl.h:1141-1150 | joining the smaller buckets, and the final joining of all, never rebalances and stays roughly balanced |
| RopeBalance.FirstPieceReady | headers/cpp/ropeimpl.h:1151-1156 | joining the smaller buckets with the new piece never rebalances, and its depth is bounded by its level |
| RopeBalance.MeetReady | headers/cpp/ropeimpl.h:1161-1170 | joining a bucket with the piece on its way up never rebalances, whatever the depths of the two |
| RopeBalance.TreeConcat | headers/cpp/ropeimpl.h:442-476 | the tree is the node of both or, when the size and depth ask for it, exactly what rebalancing that node gives; text kept, depth at most 45 and roughly balanced after a rebalance; terminates together with balancing |
| RopeBalance.LeafConcatCharIter | headers/cpp/ropeimpl.h:383-403 | one new leaf with both texts |
| RopeBalance.JoinLastLeaf | headers/cpp/ropeimpl.h:608-625 | a short string goes into a copy of the last leaf; the old tree is untouched, and the new one is exactly that of a concatenation with the longer leaf |
| RopeBalance.Concat | headers/cpp/ropeimpl.h:589-632 | in every case the arguments stay as they are, counts are exact, the text is the concatenation, the depth is within bounds, and the tree is exactly that of `RopeForest.Concatenated`, with its merged leaves and its rebalancing |
| RopeBalance.ConcatenatedPlain | headers/cpp/ropeimpl.h:589-632 | where the depths of the arguments rule a rebalance out, none happens and the tree is the plain one |
| RopeBalance.ConcatAndSetBalanced | headers/cpp/stl_rope.h:1576-1582 | the same without a rebalance; the result is marked if its size allows its depth, and no node that was there before is marked by it |
| RopeBalance.MeetBucket | headers/cpp/ropeimpl.h:1162-1170 | one step up takes the bucket's text in front of the piece and lands within the bounds of this bucket or the next |
| RopeBalance.InsertUpwards | headers/cpp/ropeimpl.h:1161-1179 | the piece finds a bucket before they run out; the descending concatenation grows by exactly its text |
| RopeBalance.AddLeafToForest | headers/cpp/ropeimpl.h:1132-1180 | the forest keeps its size and depth bounds, the descending concatenation grows by exactly the text of the piece, and all buckets are exactly those of `RopeForest.AddLeaf` |
| RopeBalance.AddToForest | headers/cpp/ropeimpl.h:1114-1130 | the same for a whole tree, cut at its marked nodes: the buckets are exactly those of adding its balanced parts one after the other |
| RopeForest.InserteeDepth | headers/cpp/ropeimpl.h:1151-1160 | the insertee is at most one level deeper than r if and only if nothing smaller was collected, or what was is not deeper than r, or it has depth 1 and its last leaf merges with r |
| RopeForest.InserteeTooDeep | headers/cpp/ropeimpl.h:1160 | witness that the assertion fails: leaves of 24, 24 and 1000 characters, one after the other |
| RopeForest.DepthIsNotTheBucket | headers/cpp/ropeimpl.h:1085-1089 | witness that the comment fails: a leaf of five characters in bucket 3 |
| RopeBalance.Balance | headers/cpp/ropeimpl.h:1078-1112 | same text, roughly balanced, depth at most 45, so that `abort` is not reached, for every rope up to max_size(); the tree is exactly that of `RopeForest.BalanceOf`: the balanced parts added to the forest, and its buckets joined |
| RopeForest.AddAllSplit | headers/cpp/ropeimpl.h:1114-1130 | adding the parts of a left and then of a right half is adding the parts of the whole |
| RopeDepth.PartsOf | headers/cpp/ropeimpl.h:1114-1130 | the balanced parts of a rope make up its size, and each is as long as its depth asks for |
| RopeDepth.SlimAdded | headers/cpp/ropeimpl.h:1132-1180 | adding a part that is long enough for more levels than it has keeps that many levels to spare in every bucket, and no characters get lost |
| RopeDepth.BalanceSpares | headers/cpp/ropeimpl.h:1078-1112 | as many levels as all parts of a rope have to spare, the rebalanced rope has to spare as well |
| RopeDepth.LongLeaves | headers/cpp/ropeimpl.h:1078-1112 | the depth of a rebalanced rope of leaves is bounded by the table entries of its size and of its shortest leaf, whatever its depth was |
| RopeDepth.ManyLeaves | headers/cpp/ropeimpl.h:1078-1112 | 22 leaves of 1000 characters appended one by one: of depth 21, and of depth 8 at most when rebalanced |
| RopeOperations.SliceOfConcat | headers/cpp/ropeimpl.h:655-678 | a slice of a concatenation comes from the left part, the right part, or both |
| RopeOperations.Substring | headers/cpp/ropeimpl.h:634-746 | the result is the slice clamped to the text, empty ranges included; nothing that was there changes; the tree is exactly that of `PartOf`, with its copied, referenced and joined pieces |
| RopeOperations.Replace | headers/cpp/stl_rope.h:1952-1971 | the text is prefix, replacement, suffix; the intermediate references are all given back; the tree is exactly that of joining the three |
| RopeOperations.ConcatCharIter | headers/cpp/ropeimpl.h:478-528 | appends characters without touching the old rope, and results in exactly the tree that concatenation with a leaf of these characters gives |
| RopeOperations.InsertChars | headers/cpp/stl_rope.h:1989-1997 | inserts characters at a position, clamped like a substring; the tree is that of joining the parts around a leaf |
| RopeOperations.PushFront | headers/cpp/stl_rope.h:1714-1725 | the text with the character in front, as a leaf concatenated with the tree |
| RopeOperations.Fetch | headers/cpp/ropeimpl.h:1182-1222 | the descent reads the character of the text at the index |
| RopeOperations.Flatten | headers/cpp/ropeimpl.h:960-993 | writes the text |
| RopeOperations.CStr | headers/cpp/ropeimpl.h:1443-1469 | returns the text, from the copy kept in the node or by making one, which is then kept |
| RopeSharing.FetchPtr | headers/cpp/ropeimpl.h:1224-1271 | a writable place if and only if every node on the path is referenced once and it ends in a leaf; flattened copies on the path are dropped then, and nothing changes otherwise |
| RopeSharing.NotHeldElsewhere | headers/cpp/ropeimpl.h:1234-1251 | a node on a path of single references has no other reference from outside |
| RopeSharing.SiblingOffPath | headers/cpp/ropeimpl.h:1234-1251 | on such a path the other child is not on it, so a shared child cannot be hit twice |
| RopeSharing.CharAlongPath | headers/cpp/ropeimpl.h:1252-1264 | writing the leaf changes exactly the character at its offset in each tree on the path |
| RopeSharing.CharAssigned | headers/cpp/ropeimpl.h:1329-1333 | the assignment changes one character of this rope and no other rope, and keeps the invariant |
| RopeSharing.AssignChar | headers/cpp/ropeimpl.h:1321-1353 | in place whenever the place is writable, or by joining around the new character: this rope gets the character, every other reference keeps its text |
| RopeSharing.ReplaceChar | headers/cpp/ropeimpl.h:1335-1352 | the path with a destructive append to the left part also leaves all other ropes alone |
| RopeSharing.DestrLeafConcatCharIter | headers/cpp/ropeimpl.h:407-437 | grows the leaf if and only if it is referenced once and has room, and makes a new one otherwise |
| RopeSharing.GrownRoot | headers/cpp/ropeimpl.h:548-552 | growing the leaf of a single rope changes no other rope |
| RopeSharing.GrownLast | headers/cpp/ropeimpl.h:553-575 | growing the last leaf below a singly referenced concatenation changes only that rope |
| RopeSharing.Reattached | headers/cpp/ropeimpl.h:553-575 | replacing the last leaf by a longer one keeps counts exact and changes only that rope |
| RopeSharing.DestrConcatCharIter | headers/cpp/ropeimpl.h:530-587 | the appended text, one more reference, and every other reference from outside still has its text; in place exactly when nothing else refers to the leaf and the node above it and the leaf stays short, and otherwise exactly the tree of a concatenation |
| RopeProgram.Program.SetChar | headers/cpp/ropeimpl.h:1321-1353 | of all ropes, only the assigned one changes |
| RopeProgram.Program.Append | headers/cpp/stl_rope.h:1879-1885 | of all ropes, only the extended one changes |
| RopeProgram.Program.ReplaceWithCStr | headers/cpp/ropeimpl.h:1471-1487 | all texts stay the same, and the rope becomes a leaf |
| RopeProgram.Program.Run | headers/cpp/stl_rope.h:1605-2114 | after any sequence of operations on ropes that share nodes, each rope has the text of plain string operations; without in-place operations, each has exactly the tree that the same operations on separate trees give |
| RopeProgram.Program.Execute | headers/cpp/stl_rope.h:1605-2114 | one operation changes the tree of one rope at most; unless it appends or assigns characters, to exactly the tree that it makes of the trees alone, whatever they share |
| RopeProgram.NoNodeUnused | headers/cpp/stl_rope.h:502-508 | with no reference from outside, the counts leave no node behind |
| RopeProgram.NoLeaks | headers/cpp/stl_rope.h:1677-1680 | when all ropes are empty, every node has been freed |
| RopeIterator.PathIsUnique | headers/cpp/ropeimpl.h:107-133 | the only path to a leaf that covers a position is that of the descent from the root |
| RopeIterator.Iterator.SetBuf | headers/cpp/ropeimpl.h:30-75 | the buffer and its bounds are the characters around the position |
| RopeIterator.Iterator.SetCache | headers/cpp/ropeimpl.h:77-148 | the last four nodes and the direction bits describe the end of the path to the leaf |
| RopeIterator.Iterator.SetCacheForIncr | headers/cpp/ropeimpl.h:150-213 | stepping to the next leaf from the four cached nodes ends in the state a fresh SetCache promises |
| RopeIterator.Iterator.Incr | headers/cpp/ropeimpl.h:215-229 | moves by n and keeps buffer, path and directions right |
| RopeIterator.Iterator.Decr | headers/cpp/ropeimpl.h:231-242 | the same backwards |
| RopeIterator.Iterator.Read | headers/cpp/stl_rope.h:961-965 | reads the character of the text at the position |
| RopeIterator.Walk | headers/cpp/ropeimpl.h:30-242 | an iterator over any node of a store reads the text at its positions, for every mix of moves, reads and c_str calls in between |
| RopePieces.FeedCounts | headers/cpp/ropeimpl.h:765-784 | searching consumer: the count before the first match |
| RopePieces.PieceAtIsPiece | headers/cpp/ropeimpl.h:841-861 | the piece where a traversal begins occurs in the text at the right place |
| RopePieces.PiecesAreTheText | headers/cpp/ropeimpl.h:832-890 | the consumer is fed exactly the text of the range if and only if the first piece is a leaf or is entered at its start |
| RopePieces.PieceEnteredInside | headers/cpp/ropeimpl.h:876-883 | witness that it fails: a function piece entered at its second character |
| RopePieces.FlattenRangeIsSlice | headers/cpp/ropeimpl.h:936-945 | ranged flattening is the slice, under that condition and no other |
| RopePieces.FindIsFirst | headers/cpp/ropeimpl.h:947-958 | find gives the first occurrence from the start, or none, under that condition and no other |
| RopePieces.EraseOne | headers/cpp/stl_rope.h:2112-2114 | single-position erase removes p + 1 characters, because it passes an end where a count is expected |
| RopePieces.EraseOneErases | headers/cpp/stl_rope.h:2112-2114 | it removes just the one character if and only if it is the first, the last, or behind the end |
| RopePieces.EraseOneErasesTwo | headers/cpp/stl_rope.h:2112-2114 | witness that it fails: the second of four characters |
| Insertion.SortOfSorts | headers/cpp/stl_algo.h:1150-1204 | the specification of sorting: sorted, a permutation, equivalent elements in order |
| Insertion.SortedStableUnique | headers/cpp/stl_algo.h:1516-1525 | two sorted stable arrangements are equal, element for element |
| Insertion.StableSortIsSortOf | headers/cpp/stl_algo.h:1516-1525 | whatever sorts stably computes SortOf |
| Insertion.InsertionSort | headers/cpp/stl_algo.h:1199-1204 | insertion sort is stable: it computes SortOf |
| Insertion.UnguardedInsertionSort | headers/cpp/stl_algo.h:1214-1225 | without bounds checks it stays in the range if its first element is not above the rest |
| Selection.SelectedIsSorted | headers/cpp/stl_algo.h:1671-1686 | nothing above before it and nothing below behind it: an element is, up to equivalence, where a sort puts it |
| Selection.FrontIsSorted | headers/cpp/stl_algo.h:1559-1568 | hence a partly sorted range starts like the sorted one, and any sort agrees with SortOf up to equivalence |
| Merging.MergesAgree | headers/cpp/stl_algo.h:1940-1957 | merging from the front and from the back both give the stable sort of the two ranges |
| Heap.HeapTop | headers/cpp/stl_heap.h:41-53 | the parent order alone makes the first element a largest one |
| Heap.SinkStep | headers/cpp/stl_heap.h:113-120 | moving the hole to its larger child keeps the heap around the hole |
| Heap.LiftStep | headers/cpp/stl_heap.h:46-51 | moving the hole to its parent keeps the heap around the hole, with nothing above the value below it |
| Heap.PushHeap | headers/cpp/stl_heap.h:41-53 | fills the hole: a heap from the top index on, with the old elements and the value |
| Heap.AdjustHeap | headers/cpp/stl_heap.h:107-126 | sinking to a leaf and lifting again restores the heap below the hole |
| Heap.MakeHeap | headers/cpp/stl_heap.h:204-218 | a heap of the same elements |
| Heap.TopNotBelow | headers/cpp/stl_heap.h:128-151 | the top is not less than anything that is left when the last element takes its place |
| Heap.PopHeap | headers/cpp/stl_heap.h:128-151 | a heap again, with a largest element behind it |
| Heap.SortHeap | headers/cpp/stl_heap.h:254-260 | sorted, same elements |
| Introsort.MedianStops | headers/cpp/stl_algo.h:1283-1287 | whichever of the three is the median, there is a stopper for each scan, for the one from the right behind the first element |
| Introsort.UnguardedPartition | headers/cpp/stl_algo.h:1110-1143 | the scans without bounds checks stay inside, the cut is strictly inside, nothing left of it is above and nothing right of it below the pivot |
| Introsort.IntrosortLoop | headers/cpp/stl_algo.h:1272-1291 | blocks of at most 16 elements, or sorted ones, none above the next, for every depth limit |
| Introsort.BlocksRoughlySorted | headers/cpp/stl_algo.h:1246-1249 | in such blocks elements at least 16 positions apart are in order, which is all the final pass needs |
| Introsort.FirstIsStopper | headers/cpp/stl_algo.h:1246-1249 | the least of the first 16 elements stops every later unguarded insertion |
| Introsort.FinalInsertionSort | headers/cpp/stl_algo.h:1243-1252 | sorted, same elements |
| Introsort.Sort | headers/cpp/stl_algo.h:1315-1323 | every range is sorted with the same elements, and nothing outside is touched |
| Introsort.PartialSort | headers/cpp/stl_algo.h:1559-1568 | the front is sorted and not above the rest |
| Introsort.NthElement | headers/cpp/stl_algo.h:1671-1686 | terminates; the element at nth is equivalent to the one a full sort puts there, with nothing above before and nothing below behind it |
| Rotation.RotateForward | headers/cpp/stl_algo.h:704-736 | exchanging blocks rotates, and returns the new middle |
| Rotation.TwoReversals | headers/cpp/stl_algo.h:739-763 | reversing both parts and then the whole is a rotation |
| Rotation.RotateBidirectional | headers/cpp/stl_algo.h:739-763 | the third reversal begun by exchanging ends also rotates |
| CycleRotation.Gcd | headers/cpp/stl_algo.h:692-702 | a common divisor that is a combination of both numbers |
| CycleRotation.ShortNotYet | headers/cpp/stl_algo.h:787-797 | with k < l a cycle does not close before l / d rounds |
| CycleRotation.ShortAtEnd | headers/cpp/stl_algo.h:787-797 | with k < l it closes after l / d rounds |
| CycleRotation.LongNotYet | headers/cpp/stl_algo.h:799-809 | with k > l a cycle does not close before k / d - 1 rounds |
| CycleRotation.LongAtEnd | headers/cpp/stl_algo.h:799-809 | with k > l it closes after k / d - 1 rounds |
| CycleRotation.FollowEnd | headers/cpp/stl_algo.h:783-813 | a closed cycle has gone through its whole residue class modulo gcd(n, k) |
| CycleRotation.AllCyclesDone | headers/cpp/stl_algo.h:781-815 | d closed cycles have rotated the whole range |
| CycleRotation.RotateRandomAccess | headers/cpp/stl_algo.h:765-816 | the cycle-following algorithm computes the same rotation as the two others |
| StableSorting.LowerBound | headers/cpp/stl_algo.h:1722-1745 | the first position not below the value |
| StableSorting.UpperBound | headers/cpp/stl_algo.h:1784-1807 | the first position above the value |
| StableSorting.CrosswiseSorts | headers/cpp/stl_algo.h:1990-2012 | after the cut and the rotation, stable sorts of the two sides make the stable sort of the whole |
| StableSorting.MergeWithoutBuffer | headers/cpp/stl_algo.h:1979-2013 | terminates on the two lengths and merges stably in place |
| StableSorting.HalvesSorted | headers/cpp/stl_algo.h:1338-1352 | sorting the halves first does not change the stable sort of the whole |
| StableSorting.InplaceStableSort | headers/cpp/stl_algo.h:1338-1352 | a stable sort without any buffer |
| AdaptiveSorting.MergeBackward | headers/cpp/stl_algo.h:2075-2103 | merging from the end into any array, also that of either range if there is room for the other one behind it, reads nothing it has overwritten |
| AdaptiveSorting.RotateAdaptive | headers/cpp/stl_algo.h:2052-2073 | rotates through the buffer when a part fits it, and otherwise in place |
| AdaptiveSorting.MergeAdaptive | headers/cpp/stl_algo.h:2134-2173 | a stable merge for every buffer size from one element on |
| AdaptiveSorting.TwoRuns | headers/cpp/stl_algo.h:1377-1382 | merging two neighbouring runs gives the run of the double length |
| AdaptiveSorting.LastRuns | headers/cpp/stl_algo.h:1384-1386 | so does merging what is left, even if it is less than one run |
| AdaptiveSorting.MergeSortLoop | headers/cpp/stl_algo.h:1370-1387 | one pass from runs of a length to runs of the double length in the other array |
| AdaptiveSorting.ChunkInsertionSort | headers/cpp/stl_algo.h:1414-1423 | runs of the chunk size, the last one shorter |
| AdaptiveSorting.MergeSortWithBuffer | headers/cpp/stl_algo.h:1437-1453 | the passes to and fro end in the original array with the stable sort |
| AdaptiveSorting.StableSortAdaptive | headers/cpp/stl_algo.h:1474-1490 | a stable sort for every buffer size from one element on |
| AdaptiveSorting.StableSort | headers/cpp/stl_algo.h:1516-1525 | a stable sort whatever buffer could be had, or none |
| AdaptiveSorting.InplaceMerge | headers/cpp/stl_algo.h:2219-2234 | a stable merge whatever buffer could be had, or none |
| Partitioning.PartitionedMeaning | headers/cpp/stl_algo.h:1032-1081 | the one permutation with the chosen elements in front and both kinds in their old order |
| Partitioning.HalvesRotated | headers/cpp/stl_algo.h:1038-1044 | when both halves are partitioned, rotating what is between their cuts partitions the whole |
| Partitioning.InplaceStablePartition | headers/cpp/stl_algo.h:1032-1044 | a stable partition in place, and where it is cut |
| Partitioning.Sift | headers/cpp/stl_algo.h:1054-1066 | one pass keeps the chosen elements in place and the others in the buffer without overwriting what is still to be read |
| Partitioning.StablePartitionAdaptive | headers/cpp/stl_algo.h:1046-1081 | a stable partition for every buffer size from one element on |
| Partitioning.StablePartition | headers/cpp/stl_algo.h:1083-1109 | a stable partition whatever buffer could be had, or none |
| Permutations.StepIsSuccessor | headers/cpp/stl_algo.h:2539-2549 | exchange and reversal at the pivot give the least of all greater permutations |
| Permutations.DescendingHasNoSuccessor | headers/cpp/stl_algo.h:2551-2554 | a non-increasing sequence is the greatest permutation, and reversed it is sorted |
| Permutations.NextMeaning | headers/cpp/stl_algo.h:2528-2555 | true exactly when a greater permutation exists; then the least one, and otherwise the sorted one |
| Permutations.NextPermutation | headers/cpp/stl_algo.h:2528-2555 | the array has taken one such step |
| Permutations.PrevPermutation | headers/cpp/stl_algo.h:2587-2614 | the array has taken one such step under the flipped order |
| Permutations.PrevUndoesNext | headers/cpp/stl_algo.h:2528-2614 | a step forward and one backward give the same sequence back, also among equivalent elements |
| Permutations.NextThenPrev | headers/cpp/stl_algo.h:2528-2614 | the two calls one after the other leave the array as it was, and the first is true unless there was no greater permutation |
| PoolAllocator.RoundUp | headers/cpp/stl_alloc.h:334-336 | the least multiple of eight that is large enough |
| PoolAllocator.ListIndex | headers/cpp/stl_alloc.h:350-352 | the list whose block size is the rounded size |
| PoolAllocator.CutBlocks | headers/cpp/stl_alloc.h:473-482 | cutting m blocks off the unused piece keeps all blocks apart and adds their sizes |
| PoolAllocator.CutMembers | headers/cpp/stl_alloc.h:473-482 | the blocks are then the old ones, unchanged, and the new ones |
| PoolAllocator.ServePieces | headers/cpp/stl_alloc.h:538-557 | linking all new blocks but the first makes a well-formed list, given that the list was empty |
| PoolAllocator.LeftoverClass | headers/cpp/stl_alloc.h:486-493 | what is left goes to a list of exactly its size, of a strictly smaller class |
| PoolAllocator.Pool.ChunkAlloc | headers/cpp/stl_alloc.h:464-524 | terminates; cuts as many blocks as fit, up to the asked number, off the piece, and asks malloc only if not one fits; then, for twice the bytes and a sixteenth of the heap, malloc first, the lists of larger blocks from the smallest up if it refuses, and malloc again; blocks in use are undisturbed |
| PoolAllocator.Pool.Refill | headers/cpp/stl_alloc.h:530-559 | from a list that was empty, exactly one such cut of up to 20 blocks: the first one to the client and the rest to the list |
| PoolAllocator.Pool.Allocate | headers/cpp/stl_alloc.h:404-428 | a block that is not in use yet: of the rounded size, the first of its list if that has any and otherwise the first of a refill, or above 128 bytes one straight from malloc |
| PoolAllocator.OutOfMemoryMeans | headers/cpp/stl_alloc.h:404-559 | a small request fails if and only if the piece is too short, all lists from its own up are empty, and malloc refuses twice |
| PoolAllocator.ServedWhileGranted | headers/cpp/stl_alloc.h:404-559 | no request of any size fails while malloc gives what it is asked for |
| PoolAllocator.Pool.Deallocate | headers/cpp/stl_alloc.h:430-449 | the block is first on the list of its size, or above 128 bytes given back to malloc, and nothing else changes |
| PoolAllocator.LinksUntouched | headers/cpp/stl_alloc.h:339-342 | writing to an address that is not that of a free block leaves all lists linked as they were |
| PoolAllocator.Pool.Write | headers/cpp/stl_alloc.h:339-342 | whatever a client writes into a block it holds, small or large, the allocator stays as it should be |
| PoolAllocator.LargeLess | headers/cpp/stl_alloc.h:166-169 | giving one large block back leaves all others, and the memory of the pool, as they were |
| PoolAllocator.HeldApart | headers/cpp/stl_alloc.h:403-449 | blocks in a client's hands do not overlap, whether from the pool or from malloc |
| PoolAllocator.Run | headers/cpp/stl_alloc.h:403-559 | after any requests, releases and writes of a client and any failures of malloc: a valid pool, no two held blocks overlap, obtained memory, heap size, blocks, unused piece and large blocks add up, and no request has failed if malloc never refused |
| ListRings.TransferRings | headers/cpp/stl_list.h:468-481 | the seven assignments move nodes between two rings, in next and in prev |
| ListRings.TransferAll | headers/cpp/stl_list.h:468-481 | no other ring is affected |
| ListRings.TransferApart | headers/cpp/stl_list.h:468-481 | no node ends up in two lists |
| ListRings.TransferWithin | headers/cpp/stl_list.h:468-481 | the same assignments within one ring let two neighbouring rows of nodes change places, in next and in prev |
| ListRings.TransferWithinAll | headers/cpp/stl_list.h:468-481 | no other ring is affected by that either |
| ListSorting.Lists.TransferWithin | headers/cpp/stl_list.h:468-481 | the list has its nodes in the new order, and every other list is as it was |
| ListSorting.Lists.Reverse | headers/cpp/stl_list.h:709-723 | the same nodes in the opposite order |
| ListSorting.Lists.Merge | headers/cpp/stl_list.h:782-800 | the first list is the stable merge of both, made of the same nodes, and the second is empty |
| ListSorting.CarryStep | headers/cpp/stl_list.h:813-816 | merging a counter with the carry makes a stable sort of twice as many nodes, older ones first |
| ListSorting.CarryDone | headers/cpp/stl_list.h:817-818 | the carry put into the first empty counter: counters hold powers of two, and all nodes so far in order |
| ListSorting.CollapseStep | headers/cpp/stl_list.h:821-822 | merging the counters from the smallest up keeps older nodes first |
| ListSorting.Lists.Sort | headers/cpp/stl_list.h:801-825 | the stable sort of exactly the original nodes, for fewer than 2^64 of them, within the 64 counters |
| HashTable.SizeFor | headers/cpp/stl_hashtable.h:159-164 | the first listed size that is large enough, or the last one |
| HashTable.FirstIsLeast | headers/cpp/stl_hashtable.h:159-164 | in an ascending table the first entry that is large enough is the least one |
| HashTable.NextPrime | headers/cpp/stl_hashtable.h:159-164 | the least size of the table that is not below what was asked for, or its largest one |
| HashTable.FrontOk | headers/cpp/stl_hashtable.h:709-712 | a node put in front of a chain keeps equal keys together, if its key is new or that of the first node |
| HashTable.BehindOk | headers/cpp/stl_hashtable.h:724-731 | a node put behind one with an equal key keeps equal keys together |
| HashTable.Table.Find | headers/cpp/stl_hashtable.h:458-467 | the first node with the key in the order of iteration, which is where equal_range begins, and none only if there is none |
| HashTable.FirstOfAll | headers/cpp/stl_hashtable.h:458-467 | the first node with a key in the bucket of the key is the first of all nodes with it |
| HashTable.Table.InsertUniqueNoResize | headers/cpp/stl_hashtable.h:697-714 | inserted, in front of its chain, if and only if no equal key was there; otherwise the first node with it and nothing changed |
| HashTable.Table.InsertEqualNoResize | headers/cpp/stl_hashtable.h:716-738 | always one node more: behind the first one with an equal key, or in front of its chain |
| HashTable.Table.InsertUnique | headers/cpp/stl_hashtable.h:354-358 | the table grows first, by the rule of resize for one element more; then as without growing |
| HashTable.Table.InsertEqual | headers/cpp/stl_hashtable.h:360-364 | the same for insert_equal |
| HashTable.Grown | headers/cpp/stl_hashtable.h:916-922 | buckets are never fewer, as many as before if that is enough, and otherwise enough or as many as there can be |
| HashTable.Table.constructor | headers/cpp/stl_hashtable.h:247-259 | an empty table with as many buckets as the next size |
| HashTable.MoveKeepsGroups | headers/cpp/stl_hashtable.h:927-936 | during the order-reversing move to new buckets, a key that has arrived before is that of the first node of its new chain |
| HashTable.Table.Resize | headers/cpp/stl_hashtable.h:916-953 | same nodes and values, buckets as many as the next size, every chain exactly that of moving the nodes in the order of iteration to the front of their new chains, all invariants kept |
| HashTable.ValuesLacking | headers/cpp/stl_hashtable.h:811-843 | the values of the nodes that remain are the multiset without those of the key |
| HashTable.Table.EraseKey | headers/cpp/stl_hashtable.h:811-843 | exactly the nodes with the key are gone, the others in their order, and the number of those is returned |
| HashTable.EachOnce | headers/cpp/stl_hashtable.h:563-576 | the order of iteration has every node once and nothing else |
| HashTable.Table.Begin | headers/cpp/stl_hashtable.h:316-322 | iteration starts with the first node of that order |
| HashTable.Table.Increment | headers/cpp/stl_hashtable.h:563-576 | operator++ goes to the next node of that order, or to the end |
| HashTable.RangeBounds | headers/cpp/stl_hashtable.h:760-780 | the group of a key in its chain is one interval of the whole order of iteration |
| HashTable.CountHaving | headers/cpp/stl_hashtable.h:480-490 | the length of that interval is the number of nodes with the key |
| HashTable.Table.EqualRange | headers/cpp/stl_hashtable.h:760-780 | of all nodes in order, exactly those of the returned interval have the key, they are count(key), and the first is that of find |
| HashTable.Table.EraseBucket | headers/cpp/stl_hashtable.h:955-989 | what is left of the bucket as the code stands, every other bucket as before |
| HashTable.RangeErasedWhen | headers/cpp/stl_hashtable.h:955-989 | it erases the given range if and only if that starts the bucket or ends it |
| HashTable.MiddleErasedWrongly | headers/cpp/stl_hashtable.h:968-973 | witness that it fails: the middle one of three nodes |
| HashTable.Table.Run | headers/cpp/stl_hashtable.h:354-364 | after any insertions, erasures by key and resizes, the values are what the operations do to a multiset, the element count is exact, buckets never get fewer, and there are as many as elements as long as the table of sizes allows |
| DequeNodes.CellsAt | headers/cpp/stl_deque.h:34-58 | cells of the row of nodes are cells of the nodes, by quotient and remainder |
| DequeNodes.NodeOffsetIsFloor | headers/cpp/stl_deque.h:176-182 | the hand-written division rounds down for negative offsets too |
| DequeNodes.PlusMoves | headers/cpp/stl_deque.h:174-188 | operator+= moves the linear place by exactly n, in both directions and across nodes |
| DequeNodes.DifferenceIsPlaces | headers/cpp/stl_deque.h:141-144 | operator- is the difference of the linear places |
| DequeNodes.PlusThenDifference | headers/cpp/stl_deque.h:141-188 | operator- undoes operator+= |
| DequeNodes.SamePlace | headers/cpp/stl_deque.h:205-210 | comparing the current pointers decides equality of iterators, and node order is place order |
| DequeNodes.WideMoved | headers/cpp/stl_deque.h:1616-1650 | the same nodes pointed to from other slots are the same deque |
| Deque.Deque.constructor | headers/cpp/stl_deque.h:428-451 | n copies of the value, in a valid deque with as many nodes as they need, in the middle of a map of at least eight slots |
| Deque.Deque.MoveSlots | headers/cpp/stl_deque.h:1616-1650 | the node pointers arrive in order even where source and target overlap, at exactly the middle that leaves the asked room on the asked side, in the same map unless that is too small |
| Deque.Deque.ReallocateMap | headers/cpp/stl_deque.h:1616-1650 | the same for the deque: contents unchanged, cursors still on their cells, the length of the map as the code computes it |
| Deque.Deque.PushBack | headers/cpp/stl_deque.h:694-701 | one element more at the back, also when a node or a map is needed; the map is replaced or rearranged only when there is no slot left, and the front stays where it is |
| Deque.Deque.PushFront | headers/cpp/stl_deque.h:712-719 | one element more in front, by the same rule; the back stays where it is |
| Deque.Deque.PopBack | headers/cpp/stl_deque.h:731-738 | the last element gone, its node given back when it was the first of it |
| Deque.Deque.PopFront | headers/cpp/stl_deque.h:740-747 | the first element gone |
| Deque.Deque.NewElementsAtFront | headers/cpp/stl_deque.h:1574-1593 | enough nodes in front for the new elements |
| Deque.Deque.ReserveElementsAtBack | headers/cpp/stl_deque.h:902-907 | the new end is n places further on, on allocated nodes; the map changes only when these nodes find no slots |
| Deque.Deque.InsertAux | headers/cpp/stl_deque.h:1278-1307 | the value stands at the position and the rest is in order; the shorter half is moved, the end of the other one stays where it is |
| Deque.Deque.Insert | headers/cpp/stl_deque.h:751-765 | the same at the ends, and the returned iterator stands at the new element |
| Deque.Deque.Erase | headers/cpp/stl_deque.h:814-827 | the one element gone, the returned iterator behind it; the shorter half is moved |
| Deque.Deque.FillInsertAux | headers/cpp/stl_deque.h:1338-1392 | n copies at the position in each of the four cases of moving the front or the back, whichever is shorter |
| Deque.Deque.FillInsert | headers/cpp/stl_deque.h:964-981 | the same at the ends |
| Deque.Deque.EraseRange | headers/cpp/stl_deque.h:1040-1067 | the right elements remain, and the shorter end is moved; the nodes lost are those the start has passed over, and none exactly when it stays in its node or the back is moved |
| Deque.LoseANode | headers/cpp/stl_deque.h:1051-1057 | witness that nodes get lost: two of eight elements erased near the front, two to a node |
| Deque.Deque.Discard | headers/cpp/stl_deque.h:421-426 | after destruction exactly the lost nodes are still allocated |
| Deque.Deque.Run | headers/cpp/stl_deque.h:694-830 | after any run of operations the elements are those of a sequence, and without range erasure no node is lost |
| BitVector.SetBitAt | headers/cpp/stl_bvector.h:44-57 | assigning through a mask changes that bit and no other |
| BitVector.WordsFor | headers/cpp/stl_bvector.h:335-336 | the least number of words that hold n bits |
| BitVector.PlusMoves | headers/cpp/stl_bvector.h:117-142 | operator+= with truncating division moves by exactly i, also backwards, and operator- and the opposite step undo it |
| BitVector.Vector.InsertAux | headers/cpp/stl_bvector.h:420-437 | the bit at the position, in place exactly if there is room and otherwise in a new vector of twice the size |
| BitVector.Vector.Insert | headers/cpp/stl_bvector.h:688-695 | the same, and the iterator to the new bit |
| BitVector.Vector.FillInsert | headers/cpp/stl_bvector.h:763-780 | n bits at the position, in the same words if they fit, and otherwise in words for the size and the larger of the size and n |
| BitVector.Vector.Reserve | headers/cpp/stl_bvector.h:663-671 | room for n bits, same bits, and a new array only if needed |
| BitVector.Vector.Erase | headers/cpp/stl_bvector.h:783-788 | the one bit gone |
| BitVector.Vector.EraseRange | headers/cpp/stl_bvector.h:789-792 | the range gone |
| BitVector.Vector.AssignAll | headers/cpp/stl_bvector.h:607-615 | n copies, whatever was there; new words only if n does not fit |
| BitVector.Vector.Run | headers/cpp/stl_bvector.h:663-799 | after any run of operations the bits are those of a sequence of booleans, in as many words as the rules of growth give |
| BitVector.WordsKept | headers/cpp/stl_bvector.h:663-799 | a run of operations keeps the words if and only if none of them needs more bits than there is room for |

## Findings

Four operations do not do what their names say. The model follows the code; each has a lemma
with the exact condition under which the intended behaviour holds, and a concrete failing input.

- `headers/cpp/ropeimpl.h:876` passes the end of a range where a number of characters is
  expected, so a function or substring piece that is entered behind its start is asked for too
  many. `RopePieces.PiecesAreTheText` (and for ranged flattening and find
  `FlattenRangeIsSlice` and `FindIsFirst`) give the condition;
  `RopePieces.PieceEnteredInside` is the input.
- `headers/cpp/stl_rope.h:2112-2114`: `erase(p)` passes `p + 1` where a number of characters is
  expected. `RopePieces.EraseOneErases` gives the condition, `RopePieces.EraseOneErasesTwo` the
  input.
- `headers/cpp/stl_hashtable.h:968` ignores the end of the range when it does not start at the
  first node of the bucket. `HashTable.RangeErasedWhen` gives the condition,
  `HashTable.MiddleErasedWrongly` the input.
- `headers/cpp/stl_deque.h:1055` has its arguments reversed, so that a range erased near the
  front gives no nodes back. The elements are right. The last clause of
  `Deque.Deque.EraseRange` gives the condition, `Deque.LoseANode` the input, and
  `Deque.Deque.Discard` what remains allocated in the end.

Two remarks in the rebalancing code are stronger than what holds; the proofs use weaker ones.

- `headers/cpp/ropeimpl.h:1160` asserts that the insertee is at most one level deeper than the
  piece that is added. `RopeForest.InserteeDepth` gives the condition;
  `RopeForest.InserteeTooDeep` is the input, and `RopeBalance.AddLeafToForest` proves that the
  forest of the model is the one of the code.
- `headers/cpp/ropeimpl.h:1088` says that the piece in bucket i has depth i. It has depth at most
  i + 1, by `RopeBalance.AddLeafToForest`; `RopeForest.DepthIsNotTheBucket` is an input where it
  has depth 0.

## Left out

- Memory: addresses (of nodes of ropes, lists, hash tables and deques) are numbers that are
  never used a second time; memory exhaustion outside of the pool allocator, constructors and
  destructors of elements, and exception unwinding are not modelled.
- Integer widths: sizes and counts are unbounded, apart from the limits that matter (max_size()
  of a rope, 64 counters of the list sort, 32-bit words of the bit vector).
- Ropes: only the single-threaded, reference-counted build; garbage collection, locks and the
  atomic exchange in c_str are not part of the model. A node is removed before its own
  references are given up, a new last leaf is attached before the old one is released, and
  replace_with_c_str makes its leaf before it gives up the old tree; the source does these the
  other way round, which single-threaded callers cannot tell apart.
- Ropes: elements are characters; a function piece is its text; comparison, output, hashing,
  the constructor of n equal characters, sequence buffers, and const iterators kept across
  in-place changes of their rope are left out, as is delete_c_str on a rope that is iterated over.
- Sorting: the buffer that get_temporary_buffer obtains is a parameter, of any length the
  function can return; partial_sort_copy and the unstable partition are left out, and the
  searches, counting and copying algorithms would add only easy members.
- Rotation: the dispatcher at `headers/cpp/stl_algo.h:819-824` never selects the random access
  version; all three are modelled, none is chosen.
- Pool allocator: reallocate, locks, and the out-of-memory handler behind malloc. Memory is
  modelled by the words at its addresses.
- List: the data of a node is a function of its address, since no operation of the model
  changes it; remove, unique and the insertion of ranges are left out, as is the singly linked
  list of `headers/cpp/stl_slist.h`, whose merge and sort are those of the list on other links.
- Hash table: copying, clear, find_or_insert, erasing by iterator and insertion of ranges are
  left out. The hash function and the equality of keys are parameters; equality is an
  equivalence that the hash respects.
- Deque: elements are integers; nodes are sequences of cells in a map keyed by address; moving
  node pointers and elements is done by loops where the source calls copying functions; clear
  gives nodes back one by one without destroying their elements separately; insertion of
  ranges, assignment and resize are left out.
- Bit vector: copying functions are loops over single bits, as the generic ones are; insertion
  of ranges of iterators, flip and swap are left out.
