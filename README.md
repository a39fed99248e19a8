# more-collections, modelled in Dafny

This project models the core of the Kotlin library `more-collections`: the small containers and cursors a scanner is built from. Each Kotlin file of the core is one Dafny module.

- `PrimitiveLists` (`primitive_lists.dfy`) models `MutableIntList` and its Boolean, Long and Double siblings. They are one generic class: a growable stack over an `array` buffer that starts at capacity 10 and doubles when full.
- `RevertibleIterators` (`revertible_iterators.dfy`) models `PositionalRevertibleIterator` and its list and string versions. The class holds a position and a stack of saved positions, with `advance`, `save`, `revert`, `removeSave`, `peek`, `next`, `hasNext`, `isExhausted` and `equals`. The saved positions live in a `MutablePrimitiveList`, as in the library.
- `ListNodes` (`list_nodes.dfy`) models doubly-linked `ListNode`s. There is no list object in the library, so a ghost sequence of the nodes in head-to-tail order describes each chain. The predicate `Linked` states that the `next`/`last` fields link exactly those nodes, with no cycle. It covers splicing (`insertAfter`, `insertBefore`), searching (`seek`, `backtrace`), `head`, `tail`, both iterators, `toArrayList`, `headOf` and `tailOf`.
- `DataPivots` (`data_pivots.dfy`) models `DataPivot`, a list node carrying a `Pivot(position, value)`. It covers `getOrInsert` with its local `insertClosest`, `headPivotOf`, `tailPivotOf` and `equals`. A pure function on the pivots' payloads says where `getOrInsert` lands: `AsWrittenLookup` for the code as written, `FixedLookup` for the evidently intended search.
- `PivotIterators` (`pivot_iterators.dfy`) models `AbstractPivotIterator`: a revertible iterator plus a cursor into a pivot chain.
  - `here` finds or creates the pivot of the current position.
  - `pivots` lists the chain.
  - Every other operation is forwarded to the wrapped iterator and leaves the chain alone.
- `SourcePositions` (`source_positions.dfy`) models `SourcePosition.compareTo` and proves it a total, lexicographic order.
- `TreeNodes` (`tree_nodes.dfy`) models `DataTreeNode`.
  - A class with a mutable child list models appending (`plus`, `plusAssign`).
  - Rendering and iteration read a node as the value `Tree` it roots.
  - `treeString`/`appendSubtree` build the box-drawing text imperatively. They are proved equal to a reference definition: the lines, one per node, joined by newlines.
  - The stack-based post-order iterator is a class with a cursor, a parent stack and a `MutablePrimitiveList` of child indices. Its `Next` is proved against the sequence of nodes still pending.
- `ReversedViews` (`reversed_views.dfy`) models `fromLast` on lists and arrays.
- `BooleanAlgebra` (`boolean_algebra.dfy`) models `implies` and the non-short-circuiting accumulators `orEach`, `andEach`, `orEachRemovable` and `andEachRemovable`.
- `Failures` (`failures.dfy`) holds the exception kinds (`IllegalArgument`, `IllegalState`, `NoSuchElement`, `IndexOutOfBounds`, `UnsupportedOperation`) as values, and the `Result`/`Outcome` types operations return instead of throwing.

Each scenario of the library's unit tests is a method or lemma whose `ensures` is the asserted outcome.

## Model

| member | source | states |
|---|---|---|
| PrimitiveLists.MutablePrimitiveList.constructor | src/main/kotlin/io/github/aeckar/collections/PrimitiveLists.kt:140-142 | a new list is empty, with a buffer of the default capacity 10 |
| PrimitiveLists.MutablePrimitiveList.Last | src/main/kotlin/io/github/aeckar/collections/PrimitiveLists.kt:130-134 | `last` is the top element; on an empty list it fails with IllegalState |
| PrimitiveLists.MutablePrimitiveList.SetLast | src/main/kotlin/io/github/aeckar/collections/PrimitiveLists.kt:135-138 | setting `last` replaces only the top element and keeps the size; on an empty list it fails with IllegalState and changes nothing |
| PrimitiveLists.MutablePrimitiveList.RemoveLast | src/main/kotlin/io/github/aeckar/collections/PrimitiveLists.kt:149 | `removeLast` returns what `last` returned and drops exactly the top element; on an empty list it fails with IllegalState and changes nothing |
| PrimitiveLists.MutablePrimitiveList.PlusAssign | src/main/kotlin/io/github/aeckar/collections/PrimitiveLists.kt:154-161 | the contents gain the element at the end and keep all earlier ones; a full buffer doubles, otherwise the buffer is kept; capacity stays at least 10 and at least the size |
| PrimitiveLists.MutablePrimitiveList.GetAsWritten | src/main/kotlin/io/github/aeckar/collections/PrimitiveLists.kt:163 | `get` as written succeeds for every index inside the buffer's capacity, and returns the i-th element for every index below the size |
| PrimitiveLists.MutablePrimitiveList.Get | src/main/kotlin/io/github/aeckar/collections/PrimitiveLists.kt:37-43 | `get` as documented: succeeds exactly for indices below the size, with the element there, and fails with IndexOutOfBounds otherwise |
| PrimitiveLists.MutablePrimitiveList.Elements | src/main/kotlin/io/github/aeckar/collections/PrimitiveLists.kt:165-170 | the iterator yields exactly the first `size` elements, in push order |
| PrimitiveLists.GetOnEmptyListSucceeds | src/main/kotlin/io/github/aeckar/collections/PrimitiveLists.kt:163 | on a fresh list, `get(0)` as written returns a value instead of failing |
| PrimitiveLists.GetOnEmptyListFails | src/main/kotlin/io/github/aeckar/collections/PrimitiveLists.kt:37-43 | on a fresh list, the documented `get(0)` fails with IndexOutOfBounds |
| PrimitiveLists.LastInFirstOut | src/test/kotlin/ValueListTests.kt:17-25 | after pushing 7, 2, 5 the top is 5, and the pops return 5 and then 2 |
| PrimitiveLists.Underflow | src/test/kotlin/ValueListTests.kt:8-14 | popping an empty list fails with IllegalState, also after one push and one pop |
| PrimitiveLists.GrowthKeepsContents | src/main/kotlin/io/github/aeckar/collections/PrimitiveLists.kt:154-161 | pushing any number of elements, past any number of doublings, keeps every element in order, and the capacity covers them |
| SourcePositions.CompareTo | src/main/kotlin/io/github/aeckar/iteration/SourcePosition.kt:13-19 | the line difference when the lines differ, otherwise the column difference; zero exactly for equal positions, negative exactly when the first is lexicographically before the second |
| SourcePositions.CompareToAntisymmetric | src/main/kotlin/io/github/aeckar/iteration/SourcePosition.kt:13-19 | swapping the operands flips the sign of the comparison |
| SourcePositions.CompareToTransitive | src/main/kotlin/io/github/aeckar/iteration/SourcePosition.kt:13-19 | the strict and the non-strict order are both transitive |
| SourcePositions.CompareToTotal | src/main/kotlin/io/github/aeckar/iteration/SourcePosition.kt:8-19 | exactly one of before, equal and after holds for any two positions |
| BooleanAlgebra.Implies | src/main/kotlin/io/github/aeckar/iteration/BooleanAlgebra.kt:6-11 | returns the receiver and runs `other` exactly when the receiver is true |
| BooleanAlgebra.OrEach | src/main/kotlin/io/github/aeckar/iteration/BooleanAlgebra.kt:19-23 | true exactly when some element maps to true; `transform` is applied to every element once, in order |
| BooleanAlgebra.AndEach | src/main/kotlin/io/github/aeckar/iteration/BooleanAlgebra.kt:31-35 | true exactly when every element maps to true; `transform` is applied to every element once, in order |
| BooleanAlgebra.OrEachRemovable | src/main/kotlin/io/github/aeckar/iteration/BooleanAlgebra.kt:43-51 | the disjunction over every element, each visited once in order with no short-circuit; the elements whose transform removed them are gone afterwards |
| BooleanAlgebra.AndEachRemovable | src/main/kotlin/io/github/aeckar/iteration/BooleanAlgebra.kt:59-67 | the conjunction over every element, each visited once in order with no short-circuit; the elements whose transform removed them are gone afterwards |
| BooleanAlgebra.KeptAppend | src/main/kotlin/io/github/aeckar/iteration/BooleanAlgebra.kt:43-51 | the elements kept by a pass over one more element are those kept before, plus that element unless it was removed |
| BooleanAlgebra.EdgeCases | src/main/kotlin/io/github/aeckar/iteration/BooleanAlgebra.kt:13-35 | `orEach` of nothing is false, `andEach` of nothing is true, and both give `transform(x)` for one element |
| ReversedViews.ReversedAt | src/main/kotlin/io/github/aeckar/iteration/ReversedViews.kt:11-16 | the k-th element produced in reverse is the element at index n-1-k |
| ReversedViews.ReversedTwice | src/main/kotlin/io/github/aeckar/iteration/ReversedViews.kt:11-16 | reversing twice gives back the original order |
| ReversedViews.ReversedSnoc | src/main/kotlin/io/github/aeckar/iteration/ReversedViews.kt:11-16 | reversing a sequence one element longer puts that element first |
| ReversedViews.ReversedIterator.constructor | src/main/kotlin/io/github/aeckar/iteration/ReversedViews.kt:12 | the position starts at the last index, so exactly the reversed elements are left to produce |
| ReversedViews.ReversedIterator.HasNext | src/main/kotlin/io/github/aeckar/iteration/ReversedViews.kt:13 | true exactly while some element is left to produce |
| ReversedViews.ReversedIterator.Next | src/main/kotlin/io/github/aeckar/iteration/ReversedViews.kt:14 | produces the next element in reverse order and moves down by one; once exhausted it fails with IndexOutOfBounds and still moves the position |
| ReversedViews.FromLastArray | src/main/kotlin/io/github/aeckar/iteration/ReversedViews.kt:23-28 | `Array.fromLast` is the same iterator over the array's elements |
| ReversedViews.FromLastElements | src/main/kotlin/io/github/aeckar/iteration/ReversedViews.kt:11-16 | draining `fromLast` yields exactly n elements, those at indices n-1 down to 0, after which `hasNext` is false |
| ReversedViews.FromLastEmpty | src/main/kotlin/io/github/aeckar/iteration/ReversedViews.kt:12-14 | an empty list produces nothing: `hasNext` is false at once and every `next` fails with IndexOutOfBounds |
| RevertibleIterators.PositionalRevertibleIterator.constructor | src/main/kotlin/io/github/aeckar/iteration/RevertibleIterators.kt:144-147 | a new iterator is at position 0 with no saved positions |
| RevertibleIterators.PositionalRevertibleIterator.Advance | src/main/kotlin/io/github/aeckar/iteration/RevertibleIterators.kt:149-152 | a negative count fails with IllegalArgument and changes nothing; otherwise the position grows by exactly the count and the saves are untouched |
| RevertibleIterators.PositionalRevertibleIterator.Save | src/main/kotlin/io/github/aeckar/iteration/RevertibleIterators.kt:154-156 | pushes the current position onto the saves and does not move |
| RevertibleIterators.PositionalRevertibleIterator.Revert | src/main/kotlin/io/github/aeckar/iteration/RevertibleIterators.kt:158-160 | pops the latest save and makes it the position; with nothing saved it fails with IllegalState and changes nothing |
| RevertibleIterators.PositionalRevertibleIterator.RemoveSave | src/main/kotlin/io/github/aeckar/iteration/RevertibleIterators.kt:162-164 | pops the latest save without moving; with nothing saved it fails with IllegalState and changes nothing |
| RevertibleIterators.PositionalRevertibleIterator.RemoveLastSave | src/main/kotlin/io/github/aeckar/iteration/RevertibleIterators.kt:189-195 | returns and drops the latest save; with nothing saved the result is IllegalState |
| RevertibleIterators.PositionalRevertibleIterator.HasNext | src/main/kotlin/io/github/aeckar/iteration/RevertibleIterators.kt:199 | true exactly when the position is below the length |
| RevertibleIterators.PositionalRevertibleIterator.IsExhausted | src/main/kotlin/io/github/aeckar/iteration/RevertibleIterators.kt:200 | the negation of `hasNext` |
| RevertibleIterators.PositionalRevertibleIterator.Peek | src/main/kotlin/io/github/aeckar/iteration/RevertibleIterators.kt:202 | the element at the position; at or past the end NoSuchElement |
| RevertibleIterators.PositionalRevertibleIterator.Next | src/main/kotlin/io/github/aeckar/iteration/RevertibleIterators.kt:201 | returns what `peek` returns and moves one place exactly when that succeeded; the saves are untouched |
| RevertibleIterators.PositionalRevertibleIterator.Position | src/main/kotlin/io/github/aeckar/iteration/RevertibleIterators.kt:166 | the current position, never negative |
| RevertibleIterators.PositionalRevertibleIterator.Equals | src/main/kotlin/io/github/aeckar/iteration/RevertibleIterators.kt:168-176 | true exactly for iterators over the identical backing instance at the same position; an iterator equals itself |
| RevertibleIterators.ListRevertibleIterator | src/main/kotlin/io/github/aeckar/iteration/RevertibleIterators.kt:31 | a list's revertible iterator starts at 0 with nothing saved |
| RevertibleIterators.StringRevertibleIterator | src/main/kotlin/io/github/aeckar/iteration/RevertibleIterators.kt:36 | a string's revertible iterator starts at 0 with nothing saved |
| RevertibleIterators.Drain | src/test/kotlin/IteratorTests.kt:58-61 | taking `next` while `hasNext` yields exactly the elements in order, and then `next` fails with NoSuchElement |
| RevertibleIterators.TestReverting | src/test/kotlin/IteratorTests.kt:14-25 | revert with nothing saved fails; after the saves, steps and reverts the second and then the first element come out; past the end `next` fails |
| RevertibleIterators.RevertingStart | src/test/kotlin/IteratorTests.kt:15-20 | the failed revert, two saves, a step, a dropped save and the second element |
| RevertibleIterators.RevertingEnd | src/test/kotlin/IteratorTests.kt:21-24 | revert to 0 gives the first element again; after advancing 100 places `next` fails and leaves the position alone |
| RevertibleIterators.Rest | src/main/kotlin/io/github/aeckar/iteration/RevertibleIterators.kt:199-202 | the rest of the elements from the position on, after which the iterator is exhausted |
| RevertibleIterators.SaveAdvanceRevert | src/main/kotlin/io/github/aeckar/iteration/RevertibleIterators.kt:54-61 | over "Hello, world!", save then advance 7 leaves "world!", and revert brings back the whole string |
| RevertibleIterators.EqualityScenario | src/main/kotlin/io/github/aeckar/iteration/RevertibleIterators.kt:168-176 | iterators over one instance are equal at the same position and not at different ones; iterators over different instances are not equal |
| ListNodes.ListNode.constructor | src/main/kotlin/io/github/aeckar/collections/ListNodes.kt:212-214 | a new node holds its element and has no links |
| ListNodes.ListNode.NextNode | src/main/kotlin/io/github/aeckar/collections/ListNodes.kt:102-104 | the successor, or NoSuchElement on the tail |
| ListNodes.ListNode.LastNode | src/main/kotlin/io/github/aeckar/collections/ListNodes.kt:115-117 | the predecessor, or NoSuchElement on the head |
| ListNodes.NeighboursInChain | src/main/kotlin/io/github/aeckar/collections/ListNodes.kt:102-117 | along a chain, `next()` fails exactly on the tail and `last()` exactly on the head, and otherwise give the neighbours |
| ListNodes.LinkedEnds | src/main/kotlin/io/github/aeckar/collections/ListNodes.kt:151-156 | in a chain only the head lacks a predecessor and only the tail lacks a successor |
| ListNodes.ListNode.InsertAfter | src/main/kotlin/io/github/aeckar/collections/ListNodes.kt:128-134 | inserting a node after itself fails with IllegalArgument and changes nothing; otherwise the node is spliced in right after this one, with all four links set, and the chain stays well linked |
| ListNodes.ListNode.InsertBefore | src/main/kotlin/io/github/aeckar/collections/ListNodes.kt:140-146 | the mirror image: the node is spliced in right before this one, or IllegalArgument when it is this one |
| ListNodes.ListNode.InsertElementAfter | src/main/kotlin/io/github/aeckar/collections/ListNodes.kt:219-221 | a new node holding the element is spliced in right after this one |
| ListNodes.ListNode.InsertElementBefore | src/main/kotlin/io/github/aeckar/collections/ListNodes.kt:227-229 | a new node holding the element is spliced in right before this one |
| ListNodes.ListNode.Seek | src/main/kotlin/io/github/aeckar/collections/ListNodes.kt:162-171 | the first node from this one toward the tail that satisfies the predicate, or the tail when none does |
| ListNodes.ListNode.Backtrace | src/main/kotlin/io/github/aeckar/collections/ListNodes.kt:177-186 | the first node from this one toward the head that satisfies the predicate, or the head when none does |
| ListNodes.ListNode.DownToHead | src/main/kotlin/io/github/aeckar/collections/ListNodes.kt:65-77 | the nodes from this one back to the head, this one first |
| ListNodes.ListNode.Iterate | src/main/kotlin/io/github/aeckar/collections/ListNodes.kt:196-206 | the nodes from this one on to the tail, this one first |
| ListNodes.ListNode.Head | src/main/kotlin/io/github/aeckar/collections/ListNodes.kt:151 | the first node of the chain, the one with no predecessor |
| ListNodes.ListNode.Tail | src/main/kotlin/io/github/aeckar/collections/ListNodes.kt:156 | the last node of the chain, the one with no successor |
| ListNodes.ToArrayList | src/main/kotlin/io/github/aeckar/collections/ListNodes.kt:50-58 | every node of the chain head to tail, whichever node it starts from; empty for a null receiver |
| ListNodes.HeadOf | src/main/kotlin/io/github/aeckar/collections/ListNodes.kt:18-25 | the head of a new chain whose elements are the arguments in order; no arguments fails |
| ListNodes.TailOf | src/main/kotlin/io/github/aeckar/collections/ListNodes.kt:33-40 | the tail of a new chain whose elements are the arguments in order; no arguments fails |
| ListNodes.NodesEqual | src/main/kotlin/io/github/aeckar/collections/ListNodes.kt:234-239 | two nodes are equal exactly when their elements are |
| ListNodes.ElementsSplice | src/main/kotlin/io/github/aeckar/collections/ListNodes.kt:128-146 | splicing a node between two runs of nodes splices its element between their elements |
| ListNodes.AppendNode | src/test/kotlin/ListNodeTests.kt:26-36 | after the inserts, the second and third nodes hold 1 and 2, and `toArrayList` from the second node reads 0, -1, 1, 2 |
| ListNodes.PrependNode | src/test/kotlin/ListNodeTests.kt:39-49 | after the inserts, the predecessors hold 1 and 2, and `downToHead` reads 0, -1, 1, 2 |
| ListNodes.ConversionToList | src/test/kotlin/ListNodeTests.kt:97-102 | the chain `headOf(0, 1, 2)` reads 0, 1, 2 from its head |
| DataPivots.Closest | src/main/kotlin/io/github/aeckar/collections/DataPivots.kt:89-97 | the new pivot's index is before the node when the node's position is greater, after it otherwise; equal positions find the node |
| DataPivots.AsWrittenLookup | src/main/kotlin/io/github/aeckar/collections/DataPivots.kt:99-114 | the receiver when it holds the position; otherwise the lookup from the head (target below the receiver) or the tail (target above) |
| DataPivots.BacktraceIndex | src/main/kotlin/io/github/aeckar/collections/ListNodes.kt:177-186 | the index `backtrace` stops at: the nearest at or below the start whose position is at most the target, else the head |
| DataPivots.SeekIndex | src/main/kotlin/io/github/aeckar/collections/ListNodes.kt:162-171 | the index `seek` stops at: the nearest at or above the start whose position is at least the target, else the tail |
| DataPivots.FixedLookup | src/main/kotlin/io/github/aeckar/collections/DataPivots.kt:102-114 | the lookup with the predicates applied to the node they are handed |
| DataPivots.FixedLookupCorrect | src/main/kotlin/io/github/aeckar/collections/DataPivots.kt:80-84 | on strictly ascending pivots the corrected lookup finds a pivot exactly when one holds the position, and otherwise inserts where the order stays strict |
| DataPivots.AsWrittenAgreesAtEnds | src/main/kotlin/io/github/aeckar/collections/DataPivots.kt:102-114 | the as-written lookup equals the corrected one for a target at or beyond either end, or at the receiver |
| DataPivots.SearchStopsInside | src/main/kotlin/io/github/aeckar/collections/DataPivots.kt:104-110 | on ascending pivots a corrected search stops short of the head or tail only for a target strictly inside the chain's range |
| DataPivots.AsWrittenDuplicatesPosition | src/main/kotlin/io/github/aeckar/collections/DataPivots.kt:110-114 | from the pivot at 1 in [1, 5, 10], looking up 5 inserts a second pivot at 5 |
| DataPivots.AsWrittenBreaksOrder | src/main/kotlin/io/github/aeckar/collections/DataPivots.kt:104-108 | from the pivot at 5 in [1, 3, 5], looking up 4 gives positions 1, 4, 3, 5 |
| DataPivots.InsertedAscending | src/main/kotlin/io/github/aeckar/collections/DataPivots.kt:80-84 | a pivot placed between a smaller and a greater neighbour keeps the positions strictly ascending |
| DataPivots.GapAbsent | src/main/kotlin/io/github/aeckar/collections/DataPivots.kt:80-84 | a position strictly between two neighbours of an ascending chain is held by no pivot |
| DataPivots.InsertClosest | src/main/kotlin/io/github/aeckar/collections/DataPivots.kt:89-97 | calls `lazyValue` once and links a new pivot holding its result before or after the node, as `Closest` says |
| DataPivots.GetOrInsertClosest | src/main/kotlin/io/github/aeckar/collections/DataPivots.kt:105-114 | from the node the search stopped at: that node when it holds the position, with no call to `lazyValue`; else one new pivot linked in by `insertClosest` |
| DataPivots.GetOrInsert | src/main/kotlin/io/github/aeckar/collections/DataPivots.kt:85-115 | the found pivot and an unchanged chain, or one new pivot holding `lazyValue()` at the index `AsWrittenLookup` gives, with every other pivot kept in order; `lazyValue` is called exactly when a pivot is added |
| DataPivots.GetOrInsertFixed | src/main/kotlin/io/github/aeckar/collections/DataPivots.kt:80-84 | the same, at the index the corrected `FixedLookup` gives |
| DataPivots.BacktraceIsIndex | src/main/kotlin/io/github/aeckar/collections/ListNodes.kt:177-186 | the node `backtrace` returns with the corrected predicate is the one `BacktraceIndex` names |
| DataPivots.SeekIsIndex | src/main/kotlin/io/github/aeckar/collections/ListNodes.kt:162-171 | the node `seek` returns with the corrected predicate is the one `SeekIndex` names |
| DataPivots.HeadPivotOf | src/main/kotlin/io/github/aeckar/collections/DataPivots.kt:27-34 | the head of a new chain holding one pivot per pair, in argument order; no pairs fails |
| DataPivots.TailPivotOf | src/main/kotlin/io/github/aeckar/collections/DataPivots.kt:43-50 | the tail of a new chain holding one pivot per pair, in argument order; no pairs fails |
| DataPivots.PivotsEqual | src/main/kotlin/io/github/aeckar/collections/DataPivots.kt:66-68 | two pivots are equal exactly when both positions and values are |
| DataPivots.GetOrInsertScenario | src/test/kotlin/ListNodeTests.kt:9-23 | from the pivot at 1, looking up 1 returns it, and then -8, 2, 17, 5, 20 leave the positions -8, 1, 2, 5, 17, 20 |
| DataPivots.SeekScenario | src/test/kotlin/ListNodeTests.kt:78-85 | `seek` from the head finds positions 2 and 3, and gives the tail when nothing matches |
| DataPivots.BacktraceScenario | src/test/kotlin/ListNodeTests.kt:88-94 | `backtrace` from the tail finds positions 3 and 2, and gives the head when nothing matches |
| PivotIterators.PivotIterator.constructor | src/main/kotlin/io/github/aeckar/iteration/PivotIterators.kt:102-106 | a pivot iterator over the wrapped iterator has no cursor and no pivots |
| PivotIterators.PivotIterator.Here | src/main/kotlin/io/github/aeckar/iteration/PivotIterators.kt:108-114 | the first call creates a lone pivot at the position with `init(position)`; later calls do the as-written `getOrInsert` from the cursor, calling `init` only when a pivot is added; the result becomes the cursor, its value is returned, and the wrapped iterator does not move |
| PivotIterators.PivotIterator.Start | src/main/kotlin/io/github/aeckar/iteration/PivotIterators.kt:111 | the first `here`: a lone new pivot at the position holding `init(position)` |
| PivotIterators.PivotIterator.Revisit | src/main/kotlin/io/github/aeckar/iteration/PivotIterators.kt:110-113 | a later `here`: the as-written `getOrInsert` from the cursor at the current position |
| PivotIterators.PivotIterator.Pivots | src/main/kotlin/io/github/aeckar/iteration/PivotIterators.kt:116 | every pivot of the chain head to tail, whichever node the cursor is on; empty before the first `here` |
| PivotIterators.PivotIterator.Position | src/main/kotlin/io/github/aeckar/iteration/PivotIterators.kt:20-41 | the wrapped iterator's position |
| PivotIterators.PivotIterator.HasNext | src/main/kotlin/io/github/aeckar/iteration/PivotIterators.kt:20-41 | the wrapped iterator's `hasNext` |
| PivotIterators.PivotIterator.Peek | src/main/kotlin/io/github/aeckar/iteration/PivotIterators.kt:26 | the wrapped iterator's `peek` |
| PivotIterators.PivotIterator.Save | src/main/kotlin/io/github/aeckar/iteration/PivotIterators.kt:20-41 | `save` of the wrapped iterator; the pivot chain and cursor are left alone |
| PivotIterators.PivotIterator.Revert | src/main/kotlin/io/github/aeckar/iteration/PivotIterators.kt:20-41 | `revert` of the wrapped iterator: pops the latest save into the position, or with nothing saved fails with IllegalState leaving the position and the empty saves as they were; the pivot chain and cursor are left alone |
| PivotIterators.PivotIterator.RemoveSave | src/main/kotlin/io/github/aeckar/iteration/PivotIterators.kt:20-41 | `removeSave` of the wrapped iterator: pops the latest save without moving, or with nothing saved fails with IllegalState leaving the empty saves as they were; the pivot chain and cursor are left alone |
| PivotIterators.PivotIterator.Advance | src/main/kotlin/io/github/aeckar/iteration/PivotIterators.kt:20-41 | `advance` of the wrapped iterator, including its failure; the pivot chain and cursor are left alone |
| PivotIterators.PivotIterator.Next | src/main/kotlin/io/github/aeckar/iteration/PivotIterators.kt:20-41 | `next` of the wrapped iterator; the pivot chain and cursor are left alone |
| PivotIterators.ListPivotIterator | src/main/kotlin/io/github/aeckar/iteration/PivotIterators.kt:20-28 | a list's pivot iterator wraps a fresh list iterator at 0, with no pivots |
| PivotIterators.StringPivotIterator | src/main/kotlin/io/github/aeckar/iteration/PivotIterators.kt:33-41 | a string's pivot iterator wraps a fresh string iterator at 0, with no pivots |
| PivotIterators.TestPivoting | src/test/kotlin/IteratorTests.kt:27-52 | the value written at 2 is read back as 12 after the reverts, and `pivots` lists positions 0, 1, 2, 7, 8 with values 10, 11, 12, 17, 0 |
| PivotIterators.PivotingSteps | src/test/kotlin/IteratorTests.kt:34-47 | the lookups the scenario's `here` calls make: insert 2 alone, find it again, insert 0 before, 7 and 8 after, and 1 after the head |
| PivotIterators.VisitTwoTwice | src/test/kotlin/IteratorTests.kt:28-37 | two `here` calls at position 2 give the same cell, so the 12 written is read back |
| TreeNodes.DataTreeNode.constructor | src/main/kotlin/io/github/aeckar/collections/TreeNodes.kt:11 | a new node holds its element and has no children |
| TreeNodes.DataTreeNode.PlusAssign | src/main/kotlin/io/github/aeckar/collections/TreeNodes.kt:213-215 | a new leaf holding the value becomes the last child; the other children are kept |
| TreeNodes.DataTreeNode.Plus | src/main/kotlin/io/github/aeckar/collections/TreeNodes.kt:206-208 | the same, returning this node |
| TreeNodes.DataTreeNode.PlusAssignNode | src/main/kotlin/io/github/aeckar/collections/TreeNodes.kt:187-189 | the node becomes the last child and the subtree gains its whole tree; requires the node's tree to be disjoint from this one (see Left out) |
| TreeNodes.DataTreeNode.PlusNode | src/main/kotlin/io/github/aeckar/collections/TreeNodes.kt:180-182 | the same, returning this node |
| TreeNodes.TreeNodesEqual | src/main/kotlin/io/github/aeckar/collections/TreeNodes.kt:217-222 | two nodes are equal exactly when their elements are, whatever their children |
| TreeNodes.StyleOf | src/main/kotlin/io/github/aeckar/collections/TreeNodes.kt:65-67 | exactly four characters give the style vertical, horizontal, turnstile, corner in that order; fewer fail on indexing, more fail the length requirement |
| TreeNodes.PrefixWith | src/main/kotlin/io/github/aeckar/collections/TreeNodes.kt:85-91 | appends, per ancestor, a vertical and three blanks or four blanks, then the corner, two horizontals and a blank |
| TreeNodes.AppendSubtree | src/main/kotlin/io/github/aeckar/collections/TreeNodes.kt:80-107 | appends the node's string and a newline, then each child's subtree after its prefix; the branch stack is put back as it was |
| TreeNodes.AppendChildren | src/main/kotlin/io/github/aeckar/collections/TreeNodes.kt:95-106 | each child but the last after a turnstile with a branch pushed, the last after a corner with no branch |
| TreeNodes.AppendChild | src/main/kotlin/io/github/aeckar/collections/TreeNodes.kt:97-100 | one child: its prefix, then its subtree with the branch flag pushed meanwhile and popped afterwards |
| TreeNodes.SubtreeIsLines | src/main/kotlin/io/github/aeckar/collections/TreeNodes.kt:80-107 | the text appended for a subtree is exactly its reference lines, each ended by a newline |
| TreeNodes.TreeString | src/main/kotlin/io/github/aeckar/collections/TreeNodes.kt:73-78 | the tree string is the reference lines joined by newlines, with no trailing newline |
| TreeNodes.TreeStringLines | src/main/kotlin/io/github/aeckar/collections/TreeNodes.kt:73-94 | the tree string has one line per node, the first of which is the root's string |
| TreeNodes.LineCount | src/main/kotlin/io/github/aeckar/collections/TreeNodes.kt:93-106 | one line per node of a subtree |
| TreeNodes.LinesIndented | src/main/kotlin/io/github/aeckar/collections/TreeNodes.kt:85-91 | every line below a node starts with the gutters of the node's ancestors |
| TreeNodes.UnlinesIsJoin | src/main/kotlin/io/github/aeckar/collections/TreeNodes.kt:76 | deleting the final newline turns newline-ended lines into lines joined by newlines |
| TreeNodes.PostOrderIterator.AsWritten | src/main/kotlin/io/github/aeckar/collections/TreeNodes.kt:127-134 | the initial walk as written leaves the iterator yielding `ReWalk(root)` |
| TreeNodes.PostOrderIterator.constructor | src/main/kotlin/io/github/aeckar/collections/TreeNodes.kt:120-134 | with the corrected initial walk the iterator yields the post-order of a root with children, and nothing for a leaf root |
| TreeNodes.PostOrderIterator.HasNext | src/main/kotlin/io/github/aeckar/collections/TreeNodes.kt:136 | true exactly when something is still to be yielded |
| TreeNodes.PostOrderIterator.Next | src/main/kotlin/io/github/aeckar/collections/TreeNodes.kt:138-148 | yields the first pending node and leaves the rest pending; with nothing pending it fails with NoSuchElement |
| TreeNodes.DescendAsWritten | src/main/kotlin/io/github/aeckar/collections/TreeNodes.kt:127-134 | the initial walk goes down the left spine, leaving index 0 for every node |
| TreeNodes.DescendCorrected | src/main/kotlin/io/github/aeckar/collections/TreeNodes.kt:120-134 | the corrected walk goes down the left spine with index 1 for each node passed but the deepest |
| TreeNodes.WalkDown | src/main/kotlin/io/github/aeckar/collections/TreeNodes.kt:141-146 | the loop of `next`: descends to the bottom-left node of the next child, advancing each index passed |
| TreeNodes.Drain | src/main/kotlin/io/github/aeckar/collections/TreeNodes.kt:136-148 | taking `next` while `hasNext` yields exactly what was pending, in order |
| TreeNodes.IterateAsWritten | src/main/kotlin/io/github/aeckar/collections/TreeNodes.kt:122-149 | iterating a tree as written yields the post-orders of the left spine's nodes, deepest first |
| TreeNodes.Iterate | src/main/kotlin/io/github/aeckar/collections/TreeNodes.kt:116-121 | iterating with the corrected walk yields the post-order, bottom-left first and root last |
| TreeNodes.PostOrderEnds | src/main/kotlin/io/github/aeckar/collections/TreeNodes.kt:120 | the post-order has one entry per node, starts at the bottom-left node and ends at the root |
| TreeNodes.AsWrittenPending | src/main/kotlin/io/github/aeckar/collections/TreeNodes.kt:127-134 | index 0 for every spine node leaves exactly `ReWalk` pending |
| TreeNodes.CorrectedPending | src/main/kotlin/io/github/aeckar/collections/TreeNodes.kt:120 | the corrected indices leave exactly the post-order pending |
| TreeNodes.AsWrittenCorrectWhenShallow | src/main/kotlin/io/github/aeckar/collections/TreeNodes.kt:127-148 | when the first child is a leaf the as-written iterator yields the post-order |
| TreeNodes.AsWrittenRepeats | src/main/kotlin/io/github/aeckar/collections/TreeNodes.kt:127-148 | when the first child has children the as-written iterator yields more nodes than the tree has |
| TreeNodes.ChainCounterexample | src/main/kotlin/io/github/aeckar/collections/TreeNodes.kt:127-148 | for a root with one child that has one child, the as-written iterator yields grandchild, child, grandchild, child, root |
| TreeNodes.BuildTestTree | src/test/kotlin/TreeNodeTests.kt:6-12 | the tests' tree is 4 with children 0, 2 (holding 1) and 3 |
| TreeNodes.TestIterationOrder | src/test/kotlin/TreeNodeTests.kt:26-30 | iterating the tests' tree yields the elements 0, 1, 2, 3, 4 |
| TreeNodes.TestTreeString | src/test/kotlin/TreeNodeTests.kt:15-23 | the tests' tree string is the five expected lines |

## Left out

- `SourceRevertibleIterator` and the `Reader` factories (`revertibleIterator`, `pivotIterator` on a `Reader`) are not part of this model. They read from a `java.io.Reader` and depend on the platform's line separator.
- `MultiSets.kt` and `ReadOnlyViews.kt` are not part of this model. `buildTree`, which returns a read-only view, is left out with them.
- `toString`, `hashCode` and `linkedString` are not modelled anywhere; they only format or hash arbitrary objects. `nodeString` is a function parameter of the rendering.
- `pivotOf`, `listNodeOf` and `treeNodeOf` are the constructors of `ListNode` and `DataTreeNode`, and are not modelled separately.
- 32-bit integer overflow is not modelled. This covers `position += places`, the subtraction in `compareTo` and the doubling of a buffer's capacity. All of these are unbounded integers here.
- ListNodes.ListNode.InsertAfter: the inserted node must be detached, which the Kotlin code does not check. Splicing in an already-linked node would corrupt both chains and is not modelled.
- ListNodes.ListNode.InsertBefore: the same detached-node requirement.
- ListNodes.NodesEqual: only compares two nodes. The branch of `DataListNode.equals` that compares against a one-element `Collection` is not modelled, nor is the `false` answer for an object of another type.
- DataPivots.PivotsEqual: the `false` answer for an object of another type is not modelled.
- TreeNodes.TreeNodesEqual: the `false` answer for an object of another type is not modelled.
- RevertibleIterators.PositionalRevertibleIterator.Equals: the `false` answer for an object of another type is not modelled.
- Pivot positions are integers. `SourcePosition` pivots arise only through the `Reader` factory, which is left out.
- `here()` uses the as-written `getOrInsert`, because that is what the library's iterator runs. The corrected search is proved separately; see Findings.
- `init` of a pivot iterator is a pure function from position to value. The tests' `init` allocates a fresh `mutableListOf(0)` per call; this is modelled by handing out one pre-allocated `Cell` per position.
- TreeNodes.PostOrderIterator.HasNext: compares the pending nodes by value, not `cursor !== root` by identity. A Tree value below the root is strictly smaller than the root, so the two agree on the trees modelled.
- TreeNodes.DataTreeNode.PlusAssignNode: requires the node's tree to be disjoint from this one. That rules out a node shared by two parents and a cycle of nodes; the library does not check for either. `PlusNode` carries the same requirement.
- Growing a node after it has been attached to a parent is not modelled. In Kotlin the parent sees the new child; here a parent's `Valid` covers only the shape it had when the child was attached, so trees are built bottom-up.
- Changing a tree while iterating it is not modelled.
- ReversedViews.FromLastArray: takes a snapshot of the array's contents when the iterator is created. `Array.fromLast` reads the live array on every `next`, so a write to the array during iteration is seen by the library but not by the model.
- BooleanAlgebra.OrEachRemovable: `Removable.remove()` is modelled as a flag that `transform` returns alongside its verdict, so an element is removed at most once. The iterator's own failures are not modelled: a second `remove()` within one call (IllegalStateException) and an iterator that does not support removal (UnsupportedOperationException).
- BooleanAlgebra.AndEachRemovable: the same modelling of `remove()` as a flag, with the same two failures left out.
- TreeNodes.Iterate: a leaf root still yields nothing, since the library's cursor starts at the root and `hasNext` is false at once. The correction only concerns the initial walk. This departs from the KDoc at TreeNodes.kt:120, which says the root is the last node returned. No corrected iterator for a leaf root is modelled.
- TreeNodes.StyleOf: a character here is a Unicode scalar value, whereas a Kotlin `String` is a sequence of UTF-16 code units. A character outside the Basic Multilingual Plane counts once here but twice for `chars.length` and `chars[i]`. A style string holding such a character (the musical G clef followed by two letters, say) can therefore fail here and be valid in Kotlin.
- RevertibleIterators.StringRevertibleIterator: the same difference. There is one element per Unicode scalar value, where Kotlin yields one `Char` per UTF-16 code unit, so a character outside the Basic Multilingual Plane is one element here and two in Kotlin.
- PivotIterators.StringPivotIterator: positions count Unicode scalar values, not UTF-16 code units, as for `StringRevertibleIterator`.
- RevertibleIterators.PositionalRevertibleIterator.RemoveLastSave: the library catches `NoSuchElementException` around `removeLast`, which throws `IllegalStateException`. The handler is never reached, and the caller sees IllegalState either way; only the message differs, and messages are not modelled.
- The `asSequence().map(...).reduce(...)` pipelines of `headOf`, `tailOf`, `headPivotOf` and `tailPivotOf` are evaluated eagerly. The mapping creates fresh nodes and has no other effect, so the order of evaluation does not matter.

## Findings

| source | as written | input that shows it | evidently intended | confidence | as-written member | corrected member |
|---|---|---|---|---|---|---|
| src/main/kotlin/io/github/aeckar/collections/DataPivots.kt:102-114 | the predicates passed to `backtrace` and `seek` test the captured receiver `node`, not their argument, so they are constant `false` and the search always ends at the head or the tail | chain 1, 5, 10 and `getOrInsert(5)` from the pivot at 1 gives 1, 5, 5, 10; chain 1, 3, 5 and `getOrInsert(4)` from the pivot at 5 gives 1, 4, 3, 5 | find the pivot holding the position, or insert one where the positions stay ascending (the KDoc at lines 80-84) | not executed | DataPivots.GetOrInsert, DataPivots.AsWrittenDuplicatesPosition, DataPivots.AsWrittenBreaksOrder | DataPivots.GetOrInsertFixed, DataPivots.FixedLookupCorrect |
| src/main/kotlin/io/github/aeckar/collections/TreeNodes.kt:127-134 | the initial walk pushes index 0 for every node it passes, so `next` walks each first subtree of the left spine again | a root r whose only child a has one child b yields b, a, b, a, r | post-order, bottom-left first and root last, each node once (the KDoc at lines 116-121) | not executed | TreeNodes.PostOrderIterator.AsWritten, TreeNodes.ChainCounterexample, TreeNodes.AsWrittenRepeats | TreeNodes.PostOrderIterator.constructor, TreeNodes.CorrectedPending, TreeNodes.Iterate |
| src/main/kotlin/io/github/aeckar/collections/PrimitiveLists.kt:163 | `get` indexes the buffer without comparing against `size` | `get(0)` on a new `MutableIntList` returns 0 instead of failing | IndexOutOfBounds for every index that holds no element (the KDoc at lines 38-42) | not executed | PrimitiveLists.MutablePrimitiveList.GetAsWritten, PrimitiveLists.GetOnEmptyListSucceeds | PrimitiveLists.MutablePrimitiveList.Get, PrimitiveLists.GetOnEmptyListFails |
