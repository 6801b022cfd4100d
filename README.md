# Simple binary min-heap (Blender `BLI_heap_simple.c`)

This project models Blender's simple heap: a priority queue of (priority,
payload) nodes. It supports insertion, peeking at the minimum priority and
removal of a minimum node. The nodes live in a growable array whose first
`size` slots form an implicit binary tree in heap order: the parent of slot
`i > 0` is slot `(i - 1) / 2`, and its priority is never greater than that
slot's.

The model has two modules.

- `HeapOrder` (`heap_order.dfy`) is the value-level view. It defines the node
  datatype, the parent/child index arithmetic, heap order, and the two sift
  procedures as functions on sequences: `SiftUp`, `SiftDown` and `Smallest`,
  the child choice of one sift-down step. It also defines what the live nodes
  are after an insert (`Inserted`) and after a pop (`Popped`). Lemmas prove:
  - both sifts restore heap order and only permute nodes;
  - the tie rules of both sifts;
  - the root holds a minimum priority;
  - popping a heap until it is empty yields its priorities in non-decreasing
    order, and exactly those priorities (`Values`, the priorities in slot
    order, gives the multiset they are compared with).
- `SimpleHeap` (`heap_simple.dfy`) is the heap object. The class
  `HeapSimple<T>` has the source's fields `size`, `bufsize` and `tree` (an
  `array`). Its methods update them in place, as the C functions do.
  `Valid()` is the object invariant: `1 <= bufsize == tree.Length`,
  `size <= bufsize`, and the live slots are heap-ordered. Each mutating
  method states its new state exactly, as a `HeapOrder` function of the old
  live nodes. `Up` and `Down` are the two in-place sift loops. Each is proved
  equal to the corresponding sequence function.

Priorities are `int`: the source stores a `float` but only compares
priorities with `<` and `>=`. The payload (`void *` in the source) is the type
parameter `T`. The optional release callback of `clear` and `free` is
modelled as the sequence of payloads it would be called with, returned to
the caller. A callback that is given is `withRelease == true`. A null callback
is `withRelease == false`.

The ensures clauses describe the new live nodes only in terms of the old live
nodes. So the popped sequence does not depend on the reserve hint or on
`bufsize`. After `Clear` the live nodes are `[]`, as in a new heap, so later
inserts and pops behave as they would on a new heap.

The release callback receives the live payloads in slot order `0..size-1`,
because that is how the code loops. It is not priority order.

## Model

| member | source | states |
|---|---|---|
| `HeapOrder.Parent` | source/blender/blenlib/intern/BLI_heap_simple.c:40 | the parent index of slot `i > 0` is smaller than `i`, and `i` is its left child `2p+1` or its right child `2p+2` |
| `HeapOrder.SiftUp` | source/blender/blenlib/intern/BLI_heap_simple.c:129-146 | value-level sift-up: moves the hole up past strictly greater parents, then writes the node; the length is preserved (its properties are the SiftUp lemmas below) |
| `HeapOrder.SiftUpIgnoresHole` | source/blender/blenlib/intern/BLI_heap_simple.c:129-146 | sift-up never reads the old content of the slot it starts from, which is the unused slot `size` on insert |
| `HeapOrder.UpStepKeepsRest` | source/blender/blenlib/intern/BLI_heap_simple.c:133-141 | moving the parent down into the hole keeps parent-before-child order at every slot whose parent is not the parent's old slot |
| `HeapOrder.UpStepChildren` | source/blender/blenlib/intern/BLI_heap_simple.c:133-141 | when the inserted node is strictly smaller than the hole's parent, after the move the children of the parent's slot are no smaller than the inserted node |
| `HeapOrder.UpStepGrandparent` | source/blender/blenlib/intern/BLI_heap_simple.c:133-141 | after the move, the children of the parent's slot are no smaller than that slot's own parent |
| `HeapOrder.UpHoleStep` | source/blender/blenlib/intern/BLI_heap_simple.c:133-141 | one iteration of the sift-up loop keeps the hole condition, with the hole now at the parent's slot |
| `HeapOrder.UpHoleFill` | source/blender/blenlib/intern/BLI_heap_simple.c:133-145 | writing the node into a hole that is the root or whose parent is no greater yields a heap-ordered sequence |
| `HeapOrder.SiftUpOrdered` | source/blender/blenlib/intern/BLI_heap_simple.c:129-146 | from a hole where heap order holds except at the hole, and nodes below the hole are no smaller than the inserted node, sift-up yields a heap-ordered sequence |
| `HeapOrder.SiftUpContents` | source/blender/blenlib/intern/BLI_heap_simple.c:129-146 | sift-up only permutes: the result holds the old nodes with the hole replaced by the inserted node |
| `HeapOrder.SiftUpKeepsNotGreater` | source/blender/blenlib/intern/BLI_heap_simple.c:136-138 | tie rule: sift-up stops at a parent whose priority is at most the inserted one, so every node with priority at most the inserted one stays in its slot |
| `HeapOrder.Smallest` | source/blender/blenlib/intern/BLI_heap_simple.c:97-109 | the sift-down step choice: the slot itself exactly when no existing child is strictly smaller than the node being placed; otherwise an existing child that is strictly smaller than it and no greater than either child; the right child only when it is strictly smaller than the left |
| `HeapOrder.SiftDown` | source/blender/blenlib/intern/BLI_heap_simple.c:63-127 | value-level sift-down: moves the chosen child up and the hole down until no child is strictly smaller, then writes the node; the length is preserved |
| `HeapOrder.SiftDownIgnoresHole` | source/blender/blenlib/intern/BLI_heap_simple.c:85-91 | sift-down never reads the old content of the slot it starts from; it works from the node passed in |
| `HeapOrder.SiftDownOrdered` | source/blender/blenlib/intern/BLI_heap_simple.c:93-122 | from a hole where heap order holds except at the hole, and the hole's parent is at most the placed node and the hole's children, sift-down yields a heap-ordered sequence |
| `HeapOrder.SiftDownContents` | source/blender/blenlib/intern/BLI_heap_simple.c:93-122 | sift-down only permutes: the result holds the old nodes with the hole replaced by the placed node |
| `HeapOrder.SiftDownKeepsNotSmaller` | source/blender/blenlib/intern/BLI_heap_simple.c:100-105 | tie rule: a child moves up only when strictly smaller than the placed node, so every node with priority at least the placed one stays in its slot |
| `HeapOrder.SiftDownKeepsAbove` | source/blender/blenlib/intern/BLI_heap_simple.c:93-119 | sift-down from slot `i` leaves every slot before `i` unchanged |
| `HeapOrder.SiftDownPrefersLeft` | source/blender/blenlib/intern/BLI_heap_simple.c:100-105 | tie rule: when both children are strictly smaller than the placed node and equal to each other, the left child is the one moved up |
| `HeapOrder.RootNotGreater` | source/blender/blenlib/intern/BLI_heap_simple.c:40 | in a heap-ordered sequence no slot's priority is below the root's |
| `HeapOrder.RootIsMin` | source/blender/blenlib/intern/BLI_heap_simple.c:224-229 | in a heap-ordered sequence the root's priority is at most every priority |
| `HeapOrder.Inserted` | source/blender/blenlib/intern/BLI_heap_simple.c:201-209 | the live nodes after an insert (sift-up from the new last slot) are one longer |
| `HeapOrder.InsertedCorrect` | source/blender/blenlib/intern/BLI_heap_simple.c:201-209 | inserting into a heap-ordered sequence keeps it heap-ordered and adds exactly the new node to its multiset |
| `HeapOrder.Popped` | source/blender/blenlib/intern/BLI_heap_simple.c:234-245 | the live nodes after a pop (the last node sifted down from the root, or nothing when one node was left) are one shorter |
| `HeapOrder.PoppedCorrect` | source/blender/blenlib/intern/BLI_heap_simple.c:234-245 | popping a heap-ordered sequence keeps it heap-ordered, removes exactly the old root from its multiset, and the old root's priority is at most every remaining one |
| `HeapOrder.DrainBounded` | source/blender/blenlib/intern/BLI_heap_simple.c:234-245 | popping until empty returns one priority per node, and none below a bound that all nodes respect |
| `HeapOrder.PoppedValues` | source/blender/blenlib/intern/BLI_heap_simple.c:234-245 | one pop removes exactly the root's priority from the multiset of priorities |
| `HeapOrder.DrainContents` | source/blender/blenlib/intern/BLI_heap_simple.c:234-245 | popping a heap until it is empty returns exactly its priorities, as a multiset |
| `HeapOrder.DrainSorted` | source/blender/blenlib/intern/BLI_heap_simple.c:234-245 | popping a heap until it is empty returns its priorities in non-decreasing order, one per node, and as a multiset exactly the priorities it held: a sorted permutation of them |
| `SimpleHeap.HeapSimple.NewEx` | source/blender/blenlib/intern/BLI_heap_simple.c:159-167 | a new heap is valid and empty, with `bufsize == max(1, totReserve)` in fresh storage |
| `SimpleHeap.HeapSimple.New` | source/blender/blenlib/intern/BLI_heap_simple.c:169-172 | the default heap is a new heap with one slot reserved |
| `SimpleHeap.HeapSimple.Free` | source/blender/blenlib/intern/BLI_heap_simple.c:174-184 | with a callback, destruction hands it every live payload exactly once, in slot order `0..size-1`; without one, nothing is released |
| `SimpleHeap.HeapSimple.Clear` | source/blender/blenlib/intern/BLI_heap_simple.c:186-195 | with a callback, clear hands it every old live payload exactly once, in slot order; then no node is live, and the storage and `bufsize` are unchanged |
| `SimpleHeap.HeapSimple.Grow` | source/blender/blenlib/intern/BLI_heap_simple.c:203-206 | growth doubles `bufsize` into fresh storage and keeps every live node in its slot |
| `SimpleHeap.HeapSimple.Up` | source/blender/blenlib/intern/BLI_heap_simple.c:129-146 | the in-place sift-up loop leaves slots `0..i` equal to `SiftUp` of their old content and every later slot unchanged |
| `SimpleHeap.HeapSimple.Down` | source/blender/blenlib/intern/BLI_heap_simple.c:63-127 | the in-place sift-down loop, with its spilled priority, leaves the live slots equal to `SiftDown` of their old content and every later slot unchanged |
| `SimpleHeap.HeapSimple.Insert` | source/blender/blenlib/intern/BLI_heap_simple.c:201-209 | insert keeps the heap valid and adds one live node. `bufsize` doubles into fresh storage exactly when `size >= bufsize` before the call; otherwise storage and `bufsize` are unchanged. The live nodes become `Inserted` of the old ones, so their multiset gains exactly the new node |
| `SimpleHeap.HeapSimple.IsEmpty` | source/blender/blenlib/intern/BLI_heap_simple.c:211-214 | true exactly when there is no live node |
| `SimpleHeap.HeapSimple.Len` | source/blender/blenlib/intern/BLI_heap_simple.c:216-219 | the number of live nodes |
| `SimpleHeap.HeapSimple.TopValue` | source/blender/blenlib/intern/BLI_heap_simple.c:224-229 | on a non-empty heap, one of the live priorities (`Values(Live())`) that no live priority is below |
| `SimpleHeap.HeapSimple.PopMin` | source/blender/blenlib/intern/BLI_heap_simple.c:234-245 | on a non-empty heap, returns the payload of the old root and removes one live node. The heap stays valid and keeps its `bufsize`. The live nodes become `Popped` of the old ones: the old multiset minus the old root. Every remaining priority is at least the popped one |

## Left out

- Memory management (`MEM_mallocN`, `MEM_reallocN`, `MEM_freeN`) is left out. Growth allocates a new array and copies the live slots. `Free` does not make the object unusable afterwards, and allocation failure is not modelled.
- The byte-offset addressing (`OFFSET`, `NODE`, `HEAP_LEFT_OFFSET`) is modelled as plain indices `2i+1`, `2i+2` and `(i-1)/2`. It is a code-generation device with the same meaning.
- Floating-point priorities are modelled as `int`. NaN and signed zero are not modelled, because the code only compares priorities.
- `uint` arithmetic is modelled as unbounded `nat`. This covers `size`, `bufsize`, `bufsize *= 2` and the child offsets, so their wrap-around on very large heaps is not modelled.
- `Down` receives the node to place by value. In the source it is a pointer to slot `size`, just past the live slots. The loop never writes that slot, so the difference is not observable.
- The release callback is not called as a foreign function. Its effect is modelled as the returned sequence of payloads it would receive. A null pointer is modelled as `withRelease == false`.
- `TopValue`: `BLI_assert(heap->size != 0)` is modelled as a precondition. In a release build an empty heap would return the stale priority in `tree[0]`.
- `PopMin`: `BLI_assert(heap->size != 0)` is modelled as a precondition. In a release build, popping an empty heap returns the stale `tree[0].ptr`. Then `--heap->size` wraps the unsigned `size` to `UINT_MAX`, which is not zero. So `heapsimple_down` runs with `init = &tree[UINT_MAX]`, reading and writing far outside the buffer, and the heap is left with `size == UINT_MAX`. None of this is modelled.
- Debug-build assertions and the `LIKELY`/`UNLIKELY` branch hints carry no meaning here.
- `source/blender/blenkernel/intern/screen.c` is not part of this model. It holds UI screen and region bookkeeping.
- `source/blender/nodes/shader/nodes/node_shader_geometry.c` is not part of this model. It holds shader-node registration.
