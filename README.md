# Verified model of the hw3 data structures

This project models, in Dafny, four small sequential data structures of a
C++ exercise repository, and proves what they promise:

- `Heap<T, PComparator>` (heap.h): an m-ary priority heap kept in a vector.
  `push` appends and trickles the new element up; `pop` moves the last
  element to the root and heapifies it down; `top`, `empty` and `size` only
  read. `top` and `pop` on an empty heap raise `std::underflow_error`.
  Module `Heaps` (heap.dfy): class `Heap` with the fields `m` (m_ary_),
  `compare` (compare_) and `items` (items_), the heap-order predicates the
  sift loops maintain, and lemmas for each sift step.
- `Stack<T>` (stack.h): a LIFO stack over a private vector `list` and the
  index `top_` of its last element (here `topIndex`). Module `Stacks`
  (stack.dfy).
- `llpivot` (llrec.cpp): recursively splits a singly linked list into the
  nodes whose value is at most a pivot and the nodes above it, relinking
  the existing nodes. Module `LinkedLists` (llrec.dfy): a `Node` class, a
  recursive predicate `IsList` tying a head pointer to the sequence of its
  nodes, and the method `LLPivot` proved against two stable filters.
- `Event` and `EventLess` (logicsim/event.h): the simulator's event record
  and the comparator that makes a heap of events a min-heap on time.
  Module `LogicSim` (event.dfy).

Shared modules: `Errors` (errors.dfy) holds the underflow error and the
`Result`/`Outcome` values that stand for a raised exception; `Orders`
(orders.dfy) defines a strict weak order, the requirement on the heap's
comparator.

Three details of the heap code shape the model:

- The constructor (heap.h:78-83) does not check the arity, and heap.h:171
  and heap.h:190 compute with it: arity 0 divides by zero, while arity 1
  works and degenerates to a sorted list. The model requires arity at
  least 1.
- The loop of `trickleUp_` (heap.h:171-180) has no test for the root:
  `parent >= 0` always holds for `size_t`, and the loop ends at the root
  only because `(0 - 1) / m` wraps to an index past the end of the vector.
  The model stops at index 0, which agrees with the code for every heap
  with fewer than (2^64 - 1) / m elements.
- `heapify_` returns early when a node equals its best child (heap.h:210).
  The model keeps that return and proves, in `Heaps.EqualChildStops`, that
  the heap order holds when it is taken, with `==` read as Dafny equality.

## Model

| member | source | states |
|---|---|---|
| `Heaps.Parent` | heap.h:171-180 | the parent index (i - 1) / m of a node lies before the node |
| `Heaps.ParentRange` | heap.h:190-201 | the children of node k are exactly the indices k*m+1 .. k*m+m, the ones whose parent is k |
| `Heaps.NoChildren` | heap.h:190-195 | a node whose first child index is past the end has no children |
| `Heaps.Swap` | heap.h:175-177 | the three-assignment swap exchanges two positions, keeps the others and permutes the contents |
| `Heaps.TopIsBest` | heap.h:106-118 | in a heap-ordered sequence, no element has priority over the root |
| `Heaps.AppendSetsUpTrickle` | heap.h:95-99 | appending a leaf to a heap leaves the order broken at most between the new leaf and its parent |
| `Heaps.SiftUpStep` | heap.h:173-180 | swapping an element with a parent it outranks moves the one broken edge a level up |
| `Heaps.SiftUpDone` | heap.h:173 | when sift-up stops (at the root, or where the element does not outrank its parent) the sequence is a heap |
| `Heaps.RootReplacedOrdered` | heap.h:135-139 | after the last element replaces the root and the vector shrinks, the order can be broken only below the root |
| `Heaps.DropLast` | heap.h:139 | pop_back removes exactly one copy of the last element |
| `Heaps.SiftDownStep` | heap.h:214-220 | swapping a node with a best child that outranks it moves the broken edges one level down |
| `Heaps.SiftDownDone` | heap.h:208-214 | when no child outranks the node, the sequence is a heap |
| `Heaps.EqualChildStops` | heap.h:208-212 | when a node equals its best child, that child does not outrank it, and stopping there leaves a heap |
| `Heaps.RemainingBelowTop` | heap.h:125-145 | nothing left after removing the root of a heap has priority over the removed root |
| `Heaps.Heap.constructor` | heap.h:78-83 | a new heap is empty, with the given arity and comparator |
| `Heaps.Heap.Empty` | heap.h:148-157 | true exactly when the heap holds no elements |
| `Heaps.Heap.Size` | heap.h:160-164 | the number of stored elements, counted with multiplicity |
| `Heaps.Heap.Top` | heap.h:106-119 | Underflow exactly when empty; otherwise the root, which is stored and which no stored element outranks; nothing changes |
| `Heaps.Heap.Push` | heap.h:92-101 | the contents gain exactly the item, the size grows by one, and the heap order holds again |
| `Heaps.Heap.Pop` | heap.h:125-145 | on an empty heap, Underflow and no change; otherwise exactly the old root is removed, the size shrinks by one, the heap order holds, and nothing left outranks the removed root |
| `Heaps.Heap.RemoveRoot` | heap.h:134-144 | moving the last element to the root, popping, and heapifying unless one element is left removes the old root and restores the heap order |
| `Heaps.Heap.TrickleUp` | heap.h:168-182 | sift-up from a node whose parent edge is the only broken one yields a heap with the same contents |
| `Heaps.Heap.ExtremeChild` | heap.h:197-207 | returns a child of the node that no child outranks, and every child before it is strictly outranked by it (ties go to the lowest index) |
| `Heaps.Heap.Heapify` | heap.h:186-222 | sift-down from a node whose child edges are the only broken ones yields a heap with the same contents |
| `Heaps.DrainStep` | heap.h:106-145 | appending the current top to the popped prefix keeps that prefix in non-increasing priority |
| `Heaps.Drain` | heap.h:106-145 | repeated top and pop empties the heap and yields all its elements in non-increasing priority |
| `Heaps.MaxHeapOfArityFour` | heap.h:78-101 | a 4-ary heap ordered by `>` after pushing 10, 20, 5, 30, 15 holds exactly those values |
| `Heaps.MaxHeapTopAndPop` | heap.h:106-145 | on that heap top gives 30, and after one pop top gives 20 |
| `Stacks.Stack.constructor` | stack.h:28-34 | a new stack is empty and its top index is -1 |
| `Stacks.Stack.Empty` | stack.h:43-53 | true exactly when the stack holds no elements |
| `Stacks.Stack.Size` | stack.h:56-61 | top index + 1 is the number of stored elements |
| `Stacks.Stack.Top` | stack.h:89-98 | Underflow exactly when empty; otherwise the last element pushed |
| `Stacks.Stack.Push` | stack.h:64-71 | appends the item after the unchanged earlier elements, keeps topIndex + 1 == size, and top then gives the item |
| `Stacks.Stack.Pop` | stack.h:74-86 | on an empty stack, Underflow and no change; otherwise exactly the last element is removed and the invariant is kept |
| `Stacks.PushThenPop` | stack.h:64-86 | a push followed by a pop restores the stack (last in, first out) |
| `LinkedLists.Prepend` | llrec.cpp:23-24 | linking a node that is not yet in a list in front of it yields a list one node longer |
| `LinkedLists.LLPivot` | llrec.cpp:5-35 | head ends null; smaller and larger are well-formed lists of exactly the nodes at most / above the pivot in input order (so an empty input gives two empty lists); only the input nodes' links may change |
| `LinkedLists.PartitionBounds` | llrec.cpp:22-34 | every node of smaller is at most the pivot and every node of larger is above it |
| `LinkedLists.PartitionIsPermutation` | llrec.cpp:18-34 | smaller and larger together hold each input node exactly once, so their lengths add up to the input length |
| `LinkedLists.PartitionFromInput` | llrec.cpp:23-32 | every node of the outputs comes from the input: no node is created |
| `LinkedLists.PartitionIsStable` | llrec.cpp:18-32 | partitioning a concatenation gives the concatenated partitions, so relative order is kept |
| `LinkedLists.PartitionValues` | llrec.cpp:22-34 | the values of smaller and larger are the input's values filtered by the pivot, in input order |
| `LogicSim.EventLessIsStrictWeakOrder` | logicsim/event.h:15-19 | `EventLess`, the comparison of event times, is irreflexive, transitive and negatively transitive, as the heap requires of its comparator |
| `LogicSim.EventLessIsAsymmetric` | logicsim/event.h:18 | of two events, at most one has priority over the other |
| `LogicSim.SameTimeUnordered` | logicsim/event.h:18 | events with equal times are unordered in both directions |
| `LogicSim.EventLessIgnoresPayload` | logicsim/event.h:5-18 | the result depends on the times only, not on wire or state |
| `LogicSim.EarliestAtTop` | logicsim/event.h:16-18 | in a heap ordered by EventLess the root has the earliest time |

## Left out

- Exceptions: `top` and `pop` return `Err(Underflow)` or `Fail(Underflow)` instead of throwing `std::underflow_error`, and leave the container unchanged.
- Default arguments of the heap constructor (arity 2, a default-constructed `std::less`): callers pass both.
- Heap arity 0 or a negative arity (division by zero, or a huge `size_t`): the constructor requires arity at least 1.
- Comparators that are not strict weak orders: the heap constructor requires one, as the standard library does of its comparators.
- `T`'s `==` is Dafny equality; an `operator==` that holds of values the comparator orders, under which the early return at heap.h:210 can leave a node below a child that outranks it, is not modelled.
- The heap's element type must not be a reference type (the strict-weak-order requirement quantifies over all values of `T`); a heap of pointers such as `Heap<Event*, EventLess>` is modelled as a heap of values.
- Heaps with at least (2^64 - 1) / m elements, for which the wrapped parent index at the root would lie inside the vector.
- Heaps.Heap.Push: states contents, size and heap order, not the exact positions in which trickleUp_ leaves the elements.
- Heaps.Heap.Pop: states contents, size and heap order, not the exact positions in which heapify_ leaves the elements.
- Heaps.Heap.TrickleUp: states contents and heap order, not the exact positions of the elements.
- Heaps.Heap.Heapify: states contents and heap order, not the exact positions of the elements.
- Vector allocation, copying of elements, and the empty destructors of Heap and Stack.
- `Stack`'s public inheritance from `std::vector`: none of the six declared operations uses the base-class storage.
- Overflow of the stack's `int top_` beyond 2^31 - 1 elements.
- llrec.h is not part of this model: `Node` is taken to hold an `int val` and a `next` pointer, and `val` is constant because `llpivot` never writes it.
- LLPivot: the recursive call's write of null into `head->next` is overwritten at once by the prepend, so the model performs only the final write; the list must be acyclic, and other aliasing of its nodes is not modelled.
- `Event` is modelled as a value, not through `Event*`; `Wire` (wire.h) is not part of this model and the wire is kept as an opaque address.
- The simulator that consumes the event heap, and any concurrency or I/O (the code has none).
