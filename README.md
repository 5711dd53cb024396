# FiberTaskingLib tagged heap in Dafny

FiberTaskingLib's `TaggedHeap` is a pool of fixed-size memory pages. Callers ask for pages under a numeric tag. Later they release every page of a tag in one call. Each tag owns a singly linked chain of memory nodes, and each node owns one page. Released nodes go to a FIFO queue, and the next allocations reuse them before any new node is created. One critical section guards the tag map and the queue.

The project has two modules:

- `PagePool` (`page_pool.dfy`) holds the abstract pool as values. A tag maps to its chain in allocation order. The pool also has the free queue and the set of nodes created so far. `Allocate`, `ReleaseAll` and `AllocateEach` are the operations, and the partition invariant `Valid` says that every created node is in exactly one chain or in the queue, exactly once.
- `FiberTaskingLib` (`tagged_heap.dfy`) is the heap as the C++ source writes it. It is a class with the tag map `usedMemory`, the queue `freeMemory`, the node links and the lock count. Allocation walks the chain to its tail and links the new node there. Release walks the chain and pushes each node onto the queue. The destructor walks every chain and then the queue. Each method is proved against the abstract pool (`Abstract()`), and the heap invariant `Valid()` is preserved by every operation.

The C++ `NextNode` field of each node is kept in the heap's table `nextNode`, which maps every node created so far to its successor (`null` at the end of a chain). The domain of that table is the set of created nodes. The ghost field `chains` lists each tag's nodes in link order. The critical section is modelled only by its recursion count `lockCount`.

## Model

| member | source | states |
|---|---|---|
| FiberTaskingLib.TaggedHeap.constructor | source/fiber_tasking_lib/tagged_heap.cpp:17-20 | a new heap has the given page size, no tags, an empty free queue, no nodes, the lock not held, and satisfies the heap invariant |
| FiberTaskingLib.MemoryNode.constructor | source/fiber_tasking_lib/tagged_heap.cpp:47 | a new node owns a page of the requested size |
| FiberTaskingLib.TaggedHeap.GetNextFreePage | source/fiber_tasking_lib/tagged_heap.cpp:42-71 | the page handed out and the new state are exactly one abstract `Allocate` for `id`; a node is created (fresh) only when the free queue was empty; the node is in no tag's chain beforehand; its link is cleared and its page has the heap's size; the tag map gains `id` only for a new tag; the invariant holds and the lock is left as found |
| FiberTaskingLib.TaggedHeap.EnterCriticalSection | source/fiber_tasking_lib/tagged_heap.cpp:43 | entering the critical section raises the lock count by one |
| FiberTaskingLib.TaggedHeap.LeaveCriticalSection | source/fiber_tasking_lib/tagged_heap.cpp:69 | only a holder may leave, and leaving lowers the lock count by one |
| FiberTaskingLib.TaggedHeap.AllocateLocked | source/fiber_tasking_lib/tagged_heap.cpp:45-67 | the work between entering and leaving the lock equals the abstract `Allocate` for `id`, keeps the invariant and never hands out a page that a tag still owns |
| FiberTaskingLib.TaggedHeap.TakeNode | source/fiber_tasking_lib/tagged_heap.cpp:45-52 | the node is the free queue's front, which is popped, or a fresh node of the heap's page size when the queue is empty; its link becomes null; it lies in no chain |
| FiberTaskingLib.TaggedHeap.LinkNode | source/fiber_tasking_lib/tagged_heap.cpp:54-67 | the chain of `id` becomes its old chain (empty for a new tag) followed by the node; the node ends its chain; the tag map changes only for a new tag |
| FiberTaskingLib.TaggedHeap.StartChain | source/fiber_tasking_lib/tagged_heap.cpp:54-60 | a tag without pages gets the node as the head of its one-node chain, and the links stay consistent |
| FiberTaskingLib.TaggedHeap.AppendToChain | source/fiber_tasking_lib/tagged_heap.cpp:62-67 | the walk from the head stops at the chain's last node, which is the only link that changes (to the new node); the chain becomes old chain + [node], and no other chain changes |
| FiberTaskingLib.TaggedHeap.FreeAllPagesWithId | source/fiber_tasking_lib/tagged_heap.cpp:73-90 | corrected release: an unknown tag changes nothing; a known tag's chain is appended to the free queue in link order and the tag is erased; the new state is the abstract `ReleaseAll`, the node set is unchanged, the invariant holds and the lock is left as found |
| FiberTaskingLib.TaggedHeap.FreeAllPagesWithIdAsWritten | source/fiber_tasking_lib/tagged_heap.cpp:73-90 | the release as written: same pool state as `ReleaseAll`, but for an unknown tag the lock count ends one higher than it began |
| FiberTaskingLib.TaggedHeap.ReleaseChain | source/fiber_tasking_lib/tagged_heap.cpp:81-87 | the loop pushes the tag's nodes onto the queue in link order (free' = free + chain) and the tag is erased from the map and the chains |
| FiberTaskingLib.TaggedHeap.WalkChain | source/fiber_tasking_lib/tagged_heap.cpp:26-34 | following the links from a chain's head visits exactly the chain's nodes, in order, and stops at the end |
| FiberTaskingLib.TaggedHeap.DeleteChains | source/fiber_tasking_lib/tagged_heap.cpp:25-35 | deleting the chains tag by tag visits exactly the nodes of all chains, each as often as it occurs in them |
| FiberTaskingLib.TaggedHeap.Destroy | source/fiber_tasking_lib/tagged_heap.cpp:22-40 | the destructor deletes every node ever created exactly once (the deleted nodes form the created set as a multiset) |
| FiberTaskingLib.LockLeak | source/fiber_tasking_lib/tagged_heap.cpp:76-79 | on a new heap, releasing a tag that was never allocated leaves the lock held (count 1) |
| FiberTaskingLib.LinkedAt | source/fiber_tasking_lib/tagged_heap.cpp:63-64 | in a linked chain, the i-th node has an entry, and its link is the (i+1)-th node or null after the last |
| FiberTaskingLib.FollowChain | source/fiber_tasking_lib/tagged_heap.cpp:62-65 | following k links from the j-th node reaches the (j+k)-th node, or null exactly when the chain is used up, so the tail walk ends |
| FiberTaskingLib.LinkedUpdate | source/fiber_tasking_lib/tagged_heap.cpp:52 | changing the link of a node outside a chain leaves that chain linked |
| FiberTaskingLib.LinkedAppend | source/fiber_tasking_lib/tagged_heap.cpp:67 | pointing the tail at a null-terminated outside node links a chain one longer |
| FiberTaskingLib.LinksClear | source/fiber_tasking_lib/tagged_heap.cpp:52 | clearing the link of a node that no chain holds keeps every chain linked and adds the node to the table |
| FiberTaskingLib.LinksStart | source/fiber_tasking_lib/tagged_heap.cpp:56 | a new tag mapped to a null-terminated node has a well-formed one-node chain |
| FiberTaskingLib.LinksAppend | source/fiber_tasking_lib/tagged_heap.cpp:62-67 | linking the tail of the tag's chain to the new node gives that tag the longer chain and leaves the others intact |
| FiberTaskingLib.LinksRelease | source/fiber_tasking_lib/tagged_heap.cpp:87 | erasing a tag keeps the other tags' chains well formed |
| PagePool.AllocatePreservesValid | source/fiber_tasking_lib/tagged_heap.cpp:45-67 | allocation keeps the partition: every created node sits in exactly one chain or the queue, provided a created node is new |
| PagePool.AllocateCensus | source/fiber_tasking_lib/tagged_heap.cpp:45-56 | allocation moves one node from the queue to a chain, or adds one new node when the queue is empty |
| PagePool.AllocateNeverAliases | source/fiber_tasking_lib/tagged_heap.cpp:45-51 | the node handed out is in no tag's chain, so two live page handles never alias |
| PagePool.AllocateOutcome | source/fiber_tasking_lib/tagged_heap.cpp:45-67 | a pool whose chains, queue and node set are those of an allocation is that allocation's result and is partitioned |
| PagePool.TailApart | source/fiber_tasking_lib/tagged_heap.cpp:62-67 | in a partitioned pool the tail of a chain occurs once in it and in no other chain, so relinking it touches one chain |
| PagePool.FifoReuse | source/fiber_tasking_lib/tagged_heap.cpp:46-51 | allocations the queue can serve hand out the queue's front nodes in queue order and leave the rest of the queue |
| PagePool.ReuseCreatesNothing | source/fiber_tasking_lib/tagged_heap.cpp:46-51 | allocations the queue can serve create no node |
| PagePool.ReleasePreservesValid | source/fiber_tasking_lib/tagged_heap.cpp:81-87 | releasing a tag keeps the partition invariant |
| PagePool.ReleaseKeepsNodes | source/fiber_tasking_lib/tagged_heap.cpp:81-87 | releasing a tag moves its nodes to the queue: the nodes in chains and queue are the same multiset and the same count as before |
| PagePool.ReleaseIsIdempotent | source/fiber_tasking_lib/tagged_heap.cpp:76-79 | releasing an unknown tag is a no-op, and releasing twice is the same as releasing once |
| PagePool.ReleasedPagesReusedInOrder | source/fiber_tasking_lib/tagged_heap.cpp:81-85 | after a release, the next allocations hand out the nodes already queued, then the released chain in allocation order, and create no node while doing so |
| PagePool.NodeCount | source/fiber_tasking_lib/tagged_heap.cpp:22-40 | in a partitioned pool, the chain lengths plus the queue length is the number of nodes created |
| PagePool.ExampleAllocations | source/fiber_tasking_lib/tagged_heap.cpp:42-71 | from an empty pool, two pages for tag 1 and one for tag 2 are new pages 1, 2, 3, giving chains [1, 2] and [3] |
| PagePool.ExampleReleaseAndReuse | source/fiber_tasking_lib/tagged_heap.cpp:42-90 | releasing tag 1 queues [1, 2]; the next page, for tag 3, is page 1 again and leaves [2] queued; releasing tag 2 queues [2, 3] |
| PagePool.ExampleEndsPartitioned | source/fiber_tasking_lib/tagged_heap.cpp:42-90 | at the end of the example the three pages are partitioned between tag 3's chain and the queue |

## Left out

- Locking: there are no threads and no mutual exclusion. The critical section is only its recursion count `lockCount`. `InitializeCriticalSection` and `DeleteCriticalSection` are reduced to the count starting at 0.
- The page itself (`MemoryPage`, the `Page` member of a node) and the layout of `MemoryNode` are declared in `tagged_heap.h`, which is not part of this model. A node stands for its page, so `&newNode->Page` is the node.
- `NextNode` is kept in the heap's table `nextNode` rather than as a field of each node. Writing a node's link is an update of that table. The model therefore does not capture another holder of a node pointer writing its link.
- Failure of `new MemoryNode` (out of memory) is not modelled; creating a node always succeeds.
- `delete` is not modelled as freeing memory. `Destroy` returns the nodes in deletion order and the heap is not used afterwards.
- The order in which the destructor visits the tags of `m_usedMemory` is the container's hash order. The model picks any remaining tag at each step.
- The do/while loops of the release and the destructor are `while` loops guarded by a non-null test. They behave the same because a chain's head is never null.
- `pageSize` is an unbounded `nat`; `size_t` overflow is irrelevant because the heap never computes with it.
- A caller using a page after its tag was released, or concurrently with destruction, is a caller obligation that the source does not check. The model does not track page handles after release either.
- Releasing an unknown tag: the source returns while still holding the lock, whereas a no-op that leaves the lock free is what is evidently intended. The model follows the code in `FreeAllPagesWithIdAsWritten` and the intent in `FreeAllPagesWithId` (see Findings).

## Findings

| source | as written | input that shows it | evidently intended | confidence | as-written member | corrected member |
|---|---|---|---|---|---|---|
| source/fiber_tasking_lib/tagged_heap.cpp:76-79 | when the tag is not in `m_usedMemory`, `FreeAllPagesWithId` returns after `EnterCriticalSection` without calling `LeaveCriticalSection` | `FreeAllPagesWithId(7)` on a new heap with page size 64: the lock count goes from 0 to 1 and stays there (`FiberTaskingLib.LockLeak`), so the next call from any other thread blocks forever | leave the critical section before returning, so that releasing an unknown tag is a no-op | not executed | FiberTaskingLib.TaggedHeap.FreeAllPagesWithIdAsWritten | FiberTaskingLib.TaggedHeap.FreeAllPagesWithId |
