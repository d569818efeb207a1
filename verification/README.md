# Binary min-heap: a Dafny model

This project models `Heap<P>` from `src/heap/Heap.java`. It is a binary
priority heap kept in an `ArrayList` and ordered by a `Comparator<P>`. Node
`i` has its children at `2i+1` and `2i+2`. The element with the lowest
comparator value sits at the root. The class has four operations:

- `insert(p)` appends `p` and sifts it up.
- `remove(i)` checks the index, swaps slot `i` with the last slot, shrinks the
  list and sifts down.
- `getPriority()` returns the root, or fails on an empty heap.
- `sort()` has an empty body.

The model is split into modules:

- **`HeapIndex`** (`heap_index.dfy`): the index arithmetic. `Parent` makes the
  same even/odd choice as the insertion loop. `Left` and `Right` are the child
  indices used by the removal loop.
- **`HeapOrder`** (`heap_order.dfy`): the comparator. It is a function
  `cmp: (P, P) -> int`. The predicate `Comparator(cmp)` states what a
  `Comparator` must satisfy: the sign flips when the arguments are swapped,
  and "compares at most" is transitive. `IntCompare` is ascending order on
  integers, which the documentation's examples use.
- **`Heap`** (`heap.dfy`): the heap as an immutable `seq<P>`, with functional
  definitions of `swap`, sift-up, sift-down, `insert`, `remove` and
  `getPriority`. These definitions are corrected where the Java code departs
  from its documentation (see "## Findings"). The module also proves that
  every operation preserves the heap property and the multiset of elements.
- **`HeapLoops`** (`heap_loops.dfy`): the while-loops of `insert` and `remove`
  as methods. Each is proved to compute the corresponding `Heap` function.
  `ExtractAll` repeatedly reads the root and removes index 0, and is proved to
  return the elements in ascending order.
- **`HeapAsWritten`** (`heap_as_written.dfy`): the parts of the Java code that
  differ from the intended behaviour. The sift-up loop (`SiftUpAsWritten`) and
  `remove` (`RemoveAsWritten`) are modelled as written.
  `RemoveSiftDownOnly` is a hybrid: it repairs the deletion at line 100, so
  that the missing sift-up shows on its own. The module also holds the
  lemmas that compare these with the corrected definitions.
- **`HeapExamples`** (`heap_examples.dfy`): the worked examples from the
  comments in `Heap.java`, checked against both the corrected and the
  as-written definitions.

Exceptions become values:

- `remove` gives `Err(InvalidIndex)`, or `Fail(InvalidIndex)` in the loop
  version.
- `getPriority` gives `Err(EmptyHeap)`.

In both cases the heap is left unchanged. A freshly constructed heap is `[]`.

## Model

| member | source | states |
|---|---|---|
| HeapIndex.Parent | src/heap/Heap.java:44-60 | The parent chosen by the even/odd branches is below `i`, equals `(i-1)/2`, and has `i` as its left or right child. |
| HeapIndex.Left | src/heap/Heap.java:104 | The left child `2i+1` lies after `i`, and its parent is `i`. |
| HeapIndex.Right | src/heap/Heap.java:106 | The right child `2i+2` lies after `i+1`, and its parent is `i`. |
| Heap.Swap | src/heap/Heap.java:73-77 | `swap` exchanges the two slots, keeps the length, and leaves every other slot alone. |
| Heap.SwapPermutes | src/heap/Heap.java:73-77 | `swap` keeps the multiset of elements. |
| Heap.IsHeap | src/heap/Heap.java:9-11 | The heap property of the class comment (no element compares strictly below its parent) holds of the empty heap that the constructor makes and of every one-element heap. |
| Heap.SiftUp | src/heap/Heap.java:42-62 | The corrected sift-up, which stops once the element is not strictly below its parent, keeps the length and the multiset of elements. |
| Heap.SiftUpKeepsLaterSlots | src/heap/Heap.java:42-62 | Sifting up from `i` never changes a slot after `i`. |
| Heap.SiftUpRestoresHeap | src/heap/Heap.java:42-62 | If the heap's only fault is an element below its parent at `i`, sifting up from `i` restores the heap property. |
| Heap.SiftDown | src/heap/Heap.java:102-144 | The sift-down keeps the length and the multiset of elements and never changes a slot before `i`. |
| Heap.SiftDownPicksSmallerChild | src/heap/Heap.java:114-133 | The child that sift-down trades with compares at most its sibling: the right child only when it is strictly below the left, otherwise the left. |
| Heap.SiftDownStep | src/heap/Heap.java:120-132 | Trading places with the smaller child moves the only downward fault one level down. |
| Heap.SiftDownStops | src/heap/Heap.java:134-138 | When neither child is strictly below the element, the sequence is already a heap. |
| Heap.SiftDownAtLeaf | src/heap/Heap.java:140-143 | When the node has no left child, the sequence is already a heap. |
| Heap.SiftDownRestoresHeap | src/heap/Heap.java:102-144 | If the heap's only fault is an element above its children at `i`, sifting down from `i` restores the heap property. |
| Heap.Insert | src/heap/Heap.java:37-41 | `insert` grows the heap by one and adds exactly `p` to its multiset. |
| Heap.InsertPreservesHeap | src/heap/Heap.java:9-11 | Inserting into a heap yields a heap. |
| Heap.Reposition | src/heap/Heap.java:102 | The moved element is put back by a sift-up or a sift-down, and the multiset is unchanged. |
| Heap.Remove | src/heap/Heap.java:92-100 | `remove(i)` fails with `InvalidIndex` exactly when `i < 0` or `i > size-1`. Otherwise the heap shrinks by one and loses exactly the element at `i`. |
| Heap.FilledSlotFault | src/heap/Heap.java:97-100 | After the last element fills slot `i` of a heap, the only possible fault is at `i`. |
| Heap.RemovePreservesHeap | src/heap/Heap.java:92-145 | Removing any valid index from a heap yields a heap. |
| Heap.GetPriority | src/heap/Heap.java:156-162 | `getPriority` fails with `EmptyHeap` exactly on an empty heap. Otherwise it returns the element at index 0. |
| Heap.RootIsAtMostAll | src/heap/Heap.java:147-151 | In a heap, the root compares at most every element. |
| Heap.GetPriorityIsMinimum | src/heap/Heap.java:147-162 | On a heap, `getPriority` returns an element of the heap that compares at most every element: the documented minimum. |
| Heap.Apply | src/heap/Heap.java:37-145 | A call changes the size and the multiset as `insert` or `remove` promise, and a refused `remove` leaves the heap unchanged. |
| Heap.RunPreservesHeap | src/heap/Heap.java:9-11 | Any sequence of `insert` and `remove` calls, starting from a heap, leaves a heap. |
| HeapLoops.SiftUpLoop | src/heap/Heap.java:41-62 | The sift-up loop, with its even/odd branches, computes `Heap.SiftUp` when it stops at an element that is not strictly below its parent. |
| HeapLoops.SiftDownLoop | src/heap/Heap.java:102-144 | The sift-down loop, with its `continue`/`break` structure, computes `Heap.SiftDown`. |
| HeapLoops.InsertLoop | src/heap/Heap.java:37-63 | `insert` computes `Heap.Insert` and keeps a heap a heap. |
| HeapLoops.RepositionLoop | src/heap/Heap.java:102-144 | The repositioning after a removal computes `Heap.Reposition`. |
| HeapLoops.RemoveLoop | src/heap/Heap.java:92-145 | `remove` refuses a bad index before touching the heap. Otherwise it computes `Heap.Remove` and keeps a heap a heap. |
| HeapLoops.ExtractStep | src/heap/Heap.java:147-162 | Appending the current minimum to an ascending prefix keeps it ascending, and keeps it at most every remaining element. |
| HeapLoops.ExtractAll | src/heap/Heap.java:147-162 | Reading the root and removing index 0 until the heap is empty yields its elements, as a multiset, in ascending order. |
| HeapAsWritten.SiftUpPass | src/heap/Heap.java:43-61 | One pass of the sift-up loop as written moves `i` exactly when the element is strictly below its parent, and otherwise leaves the state unchanged. |
| HeapAsWritten.SiftUpAsWritten | src/heap/Heap.java:41-62 | The as-written loop, bounded by fuel, keeps the multiset and never moves `i` down the tree. |
| HeapAsWritten.StalledSiftUpNeverExits | src/heap/Heap.java:42-62 | Once the element is not strictly below its parent, every further pass leaves `(heap, i)` unchanged with `i > 0`, so the loop never exits. |
| HeapAsWritten.SiftUpAsWrittenAgreesWhenItExits | src/heap/Heap.java:42-62 | Whenever the as-written loop reaches the root, its result is the corrected sift-up's. |
| HeapAsWritten.DeleteSlot | src/heap/Heap.java:100 | Deleting a slot removes one copy of its element from the multiset. |
| HeapAsWritten.RemoveAsWritten | src/heap/Heap.java:92-144 | As written, `remove(i)` loses the former last element and keeps the element at `i`. |
| HeapAsWritten.RemoveSiftDownOnly | src/heap/Heap.java:98-144 | The hybrid that repairs line 100 but, as the source, only sifts down: it refuses a bad index with `InvalidIndex` and otherwise loses exactly the element at `i`. |
| HeapAsWritten.RemoveRootNeedsNoSiftUp | src/heap/Heap.java:102-144 | For index 0, sifting down alone agrees with the corrected removal and leaves a heap. |
| HeapExamples.InsertDocumentedExamples | src/heap/Heap.java:29-31 | `[] ins 2` gives `[2]` and `[2] ins 0` gives `[0, 2]`. `[0, 2] ins -10` gives `[-10, 2, 0]`, not the documented `[-10, 0, 2]`. The as-written loop exits on these inputs. |
| HeapExamples.InsertOneNeverExits | src/heap/Heap.java:32 | The documented `[-10, 0, 2] ins 1` gives `[-10, 0, 2, 1]` when corrected. As written, the loop is still at index 3 after any number of passes. |
| HeapExamples.InsertThenPeek | src/heap/Heap.java:37-63 | Inserting 5, 3, 8 and 1 into an empty heap gives `[1, 3, 8, 5]`, whose priority is 1. |
| HeapExamples.InsertEightNeverExits | src/heap/Heap.java:42-62 | On the same sequence of calls, the loop as written never returns from inserting 8 into `[3, 5]`: it stays at index 2 after any number of passes. |
| HeapExamples.RemoveDocumentedExample | src/heap/Heap.java:84 | On the documented heap, corrected `remove(1)` gives the documented `[-11, 0, 0, 1, 1, 2]`. As written, it gives `[-11, 0, 1, 0, 2, -10]`, which is not a heap. |
| HeapExamples.InteriorRemoveNeedsSiftUp | src/heap/Heap.java:102-144 | On the heap `[0, 10, 1, 11, 12, 2, 3]`, `remove(3)` with only a sift-down gives a non-heap. The corrected removal gives the heap `[0, 3, 1, 10, 12, 2]`. |

## Left out

- `sort()` has an empty body, so there is nothing to model.
- `Comparator` objects become a function `cmp: (P, P) -> int`. The comparator's laws are a precondition (`HeapOrder.Comparator`) wherever ordering matters. Java never checks them.
- The heap object's state is threaded through as a value (`seq<P>`), not held in a class field. The constructor is the empty sequence.
- Exceptions and their message strings become `Result`/`Outcome` values.
- `ArrayList` growth and capacity are not modelled, and neither are the O(1), O(log n) and O(n log n) cost claims in the comments.
- Java `int` overflow of `2 * i + 1` and `2 * i + 2` is not modelled. Indices are unbounded, so heaps of more than about 2^30 elements are not covered.
- The class has no method that returns the number of elements. The model exposes the length of the sequence instead.
- HeapAsWritten.SiftUpAsWritten: a loop that never ends cannot be a Dafny function, so the as-written sift-up runs for at most `fuel` passes. Non-termination is stated as "still at the same `i > 0` after every number of passes".
- HeapAsWritten.RemoveSiftDownOnly: not the source as written. It drops the last slot, as intended, instead of slot `i` as line 100 does, so that the missing sift-up can be shown apart from the wrong deletion. The source as written is `HeapAsWritten.RemoveAsWritten`.
- HeapLoops.SiftUpLoop: the loop stops as soon as the element is not strictly below its parent, which is the corrected behaviour. The as-written behaviour is `HeapAsWritten.SiftUpAsWritten`.
- HeapLoops.RemoveLoop: models the corrected `remove`, which drops the last slot and sifts up when needed. The as-written removal is `HeapAsWritten.RemoveAsWritten`.
- The class comment also describes max-heaps. Only the min-heap that the code implements is modelled; a max-heap is a min-heap under the reversed comparator.

## Findings

| source | as written | input that shows it | evidently intended | confidence | as-written member | corrected member |
|---|---|---|---|---|---|---|
| src/heap/Heap.java:42-62 | The sift-up loop only moves `i` after a swap. When the element is not strictly below its parent, `i` stays above 0 and the loop spins forever. | `[-10, 0, 2] ins 1`, the comment's own example at line 32 | Stop sifting as soon as the element is not strictly below its parent. `insert` then returns `[-10, 0, 2, 1]` and keeps the heap property. | not executed | HeapExamples.InsertOneNeverExits | Heap.InsertPreservesHeap |
| src/heap/Heap.java:98-100 | After swapping slot `i` with the last slot, `heap.remove(i)` deletes slot `i`. That slot now holds the former last element, so the element meant for removal stays in the last slot. | `[-11, -10, 0, 1, 0, 2, 1] remove(1)` gives `[-11, 0, 1, 0, 2, -10]` | Delete the last slot. This gives the documented `[-11, 0, 0, 1, 1, 2]`, which loses exactly the element at `i`. | not executed | HeapExamples.RemoveDocumentedExample | Heap.Remove |
| src/heap/Heap.java:102-144 | After an interior removal, the moved element is only sifted down, even when it is strictly below its new parent. | `[0, 10, 1, 11, 12, 2, 3] remove(3)`, with the last slot dropped, gives `[0, 10, 1, 3, 12, 2]`, and 3 lies under 10 | Sift the moved element up when it is strictly below its new parent, and down otherwise. The result is then a heap. | not executed | HeapExamples.InteriorRemoveNeedsSiftUp | Heap.RemovePreservesHeap |
