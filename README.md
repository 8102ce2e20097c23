# cpp-examples, modelled in Dafny

This project models the core of *cpp-examples*, a collection of small, self-contained
C and C++ programs (data structures, algorithms, compile-time computation, concurrency
idioms and a packet parser), and proves properties of each model. Every source program
becomes one Dafny module, in its own file, in the program's own form:

- Containers that the source mutates in place are classes:
  - the array-based bounded queue (`ArrayQueue`) and stack (`ArrayStack`);
  - the lock-based and POSIX bounded queues (`LockBasedQueue`, `PosixBoundedQueue`);
  - the max-heap (`Heap`), the binary search tree (`BinarySearchTree`) and the doubly
    linked list (`DoublyLinkedList`);
  - the LRU cache (`LruCache`), the `mdspan` adjacency matrix (`AdjMatrix`) and the
    rule-of-five array (`RuleOfFiveSwap`).
- Each class has a ghost abstraction (`Contents`, `Elements`, `Keys`, ...) and a
  `Valid()` invariant. Each method states its whole new state in terms of that
  abstraction.
- Loops in the source are `while` loops with invariants:
  - the binary searches (`BinarySearch`);
  - the quicksort partition (`ConcurrentQsort`);
  - the sieve, the prime counter and the copy loop of `GetPrimes` (`CompileTimePrimeSieve`);
  - the digit accumulation of the integer parsers (`ParseInt`).
- Pure `constexpr` code becomes functions and lemmas:
  - the factorial (`Factorial`) and the interval merge (`MergeIntervals`);
  - the template prime sieve (`CompileTimePrimeSieve`);
  - the `from_chars`-based parsers (`ParseInt`);
  - the Ethernet/IPv4/UDP/TCP header decoders (`IpPacketParser`).
- `Common` holds the shared `Result`/`Option` types, the 32-bit `int` range and a few
  divisibility facts.

Where the source blocks on a condition variable, the model makes one call one step.
The step is `Blocked` (nothing changes) while the wait predicate is false, and otherwise
`Fired` with the call's result. Integer widths are modelled where the source depends on
them: `int` ranges in the parsers and the factorial, and the 16/32-bit big-endian fields
of the packet parser.

The packet parser is modelled as written, including its quirks:
- `get_be32` returns `uint16_t`, so the IPv4 addresses and the TCP sequence and
  acknowledgement numbers keep only their low 16 bits; an address therefore prints as
  `0.0.c.d`;
- `parse_eth` copies both addresses from the start of the buffer whatever the offset;
- `parse_tcp` demands `sizeof(TCP_Header)` bytes (32, because of the trailing
  `size_t`), not the 20 bytes a TCP header occupies on the wire;
- neither the IPv4 total length nor a TCP data offset below 5 is checked.

The encoders (`EncodeIpv4`, `EncodeTcp`, ...) are a reference layout written from the
header definitions of RFC 894, section 3.1 of RFC 791, RFC 768 and section 3.1 of
RFC 9293 (with the ECN bits of section 6.1 of RFC 3168). The round-trip lemmas connect
the encoders with the decoders.

## Model

| member | source | states |
|---|---|---|
| ArrayQueue.ArrayBasedBoundedQueue.constructor | src/data-structures/array-based-queue.cpp:10-12 | the vector gets `capacity + 1` slots; the queue holds `capacity` elements and starts empty |
| ArrayQueue.ArrayBasedBoundedQueue.Empty | src/data-structures/array-based-queue.cpp:14-17 | `head == tail` exactly when no element is queued |
| ArrayQueue.ArrayBasedBoundedQueue.Full | src/data-structures/array-based-queue.cpp:19-22 | the wrap-around test holds exactly when the queue holds `capacity` elements |
| ArrayQueue.ArrayBasedBoundedQueue.Size | src/data-structures/array-based-queue.cpp:24-27 | both branches of the distance formula give the number of queued elements, which is at most the capacity |
| ArrayQueue.ArrayBasedBoundedQueue.Enqueue | src/data-structures/array-based-queue.cpp:29-39 | succeeds exactly when the queue is not full; then the value is appended at the back; a failure changes nothing |
| ArrayQueue.ArrayBasedBoundedQueue.EnqueueCycle | src/data-structures/array-based-queue.cpp:41-55 | always succeeds; the value is appended, and on a full queue the oldest element is dropped |
| ArrayQueue.ArrayBasedBoundedQueue.Dequeue | src/data-structures/array-based-queue.cpp:57-67 | fails on an empty queue and leaves the caller's value; otherwise yields the front element and removes it (FIFO) |
| ArrayQueue.CycleScenario | src/data-structures/array-based-queue.cpp:75-106 | capacity 3 refuses a fourth element; the cycling enqueue drops 1; the dequeues give 2, 3, 4 |
| ArrayStack.ArrayBasedBoundedStack.Contents | src/data-structures/array-based-stack.cpp:44-46 | the stack's elements are the `top` slots from index 1 |
| ArrayStack.ArrayBasedBoundedStack.constructor | src/data-structures/array-based-stack.cpp:4-7 | a stack needs `N >= 1`; it starts empty with `N` usable slots |
| ArrayStack.ArrayBasedBoundedStack.Capacity | src/data-structures/array-based-stack.cpp:10-13 | the capacity is the template parameter `N`, at least 1 |
| ArrayStack.ArrayBasedBoundedStack.Size | src/data-structures/array-based-stack.cpp:15-18 | `top` is the number of stacked elements, at most the capacity |
| ArrayStack.ArrayBasedBoundedStack.Empty | src/data-structures/array-based-stack.cpp:20-23 | empty exactly when the size is 0, that is, when no element is stacked |
| ArrayStack.ArrayBasedBoundedStack.Push | src/data-structures/array-based-stack.cpp:25-32 | succeeds exactly when `top < N`; then the value goes on top; a failure changes nothing |
| ArrayStack.ArrayBasedBoundedStack.Pop | src/data-structures/array-based-stack.cpp:34-41 | fails on an empty stack and leaves the caller's value; otherwise yields the top element and removes it |
| ArrayStack.LifoScenario | src/data-structures/array-based-stack.cpp:49-76 | capacity 10; a pop on the empty stack fails; 123 and 256 pop back in LIFO order |
| LockBasedQueue.LockBasedBoundedQueue.constructor | src/concurrent/data-structures/lock-based/lock-based-bounded-queue.cpp:16 | the capacity is `max(1, capacity)`; the queue starts empty and open |
| LockBasedQueue.LockBasedBoundedQueue.Close | src/concurrent/data-structures/lock-based/lock-based-bounded-queue.cpp:18-29 | the queue is closed afterwards; buffered elements stay; a second close is harmless |
| LockBasedQueue.LockBasedBoundedQueue.WaitAndEmplace | src/concurrent/data-structures/lock-based/lock-based-bounded-queue.cpp:31-46 | blocks while the queue is full and open; once awake, refuses on a closed queue, otherwise appends the value |
| LockBasedQueue.LockBasedBoundedQueue.WaitAndPop | src/concurrent/data-structures/lock-based/lock-based-bounded-queue.cpp:48-64 | blocks while the queue is empty and open; returns and removes the front element, and nullopt only on an empty closed queue |
| LockBasedQueue.ProducerConsumerScenario | src/concurrent/data-structures/lock-based/lock-based-bounded-queue.cpp:16-64 | a sequential stand-in for `main`'s threads, on a capacity-2 queue with values 1 to 3: a full queue blocks the producer; after close the emplace is refused; the consumer still drains 1, 2, then gets nullopt |
| LockBasedQueue.ZeroCapacityScenario | src/concurrent/data-structures/lock-based/lock-based-bounded-queue.cpp:16 | a requested capacity of 0 holds one element; the second emplace blocks |
| PosixBoundedQueue.BQueue.Init | src/system/posix/posix-bounded-queue.c:24-72 | a capacity of 0 is coerced to 1; the slots are zero-filled; the queue starts empty and open |
| PosixBoundedQueue.BQueue.PushSlot | src/system/posix/posix-bounded-queue.c:121-123 | writes at `tail` and advances it modulo the capacity; the value is appended to the contents |
| PosixBoundedQueue.BQueue.PopSlot | src/system/posix/posix-bounded-queue.c:133-137 | yields the slot at `head` (the oldest element) and advances `head` modulo the capacity |
| PosixBoundedQueue.QueueEmpty | src/system/posix/posix-bounded-queue.c:86-89 | a NULL handle is empty; otherwise empty exactly when `size == 0` |
| PosixBoundedQueue.QueueFull | src/system/posix/posix-bounded-queue.c:91-94 | a NULL handle is never full; otherwise full exactly when `size == capacity` |
| PosixBoundedQueue.QueueTryPush | src/system/posix/posix-bounded-queue.c:116-126 | fails on NULL or full and changes nothing; otherwise appends; the close flag is not consulted |
| PosixBoundedQueue.QueueTryPop | src/system/posix/posix-bounded-queue.c:128-138 | fails on NULL or empty; otherwise removes the front element and returns it only when the caller passed a pointer |
| PosixBoundedQueue.QueueWaitPush | src/system/posix/posix-bounded-queue.c:140-193 | NULL fails; blocks while full and open; once awake, refuses when closed (even with room), otherwise appends |
| PosixBoundedQueue.QueueWaitPop | src/system/posix/posix-bounded-queue.c:195-249 | NULL fails; blocks while empty and open; drains buffered elements after close; fails only when empty |
| PosixBoundedQueue.QueueClose | src/system/posix/posix-bounded-queue.c:251-297 | sets the close flag and keeps the buffered elements; NULL and a second close change nothing |
| PosixBoundedQueue.PushSquares | src/system/posix/posix-bounded-queue.c:346-349 | an empty queue of capacity 5 accepts the five squares in order and refuses a sixth value |
| PosixBoundedQueue.PopUntilEmpty | src/system/posix/posix-bounded-queue.c:352-365 | popping until `queue_try_pop` fails yields exactly the buffered elements, oldest first, and leaves the queue empty |
| PosixBoundedQueue.PushPopRounds | src/system/posix/posix-bounded-queue.c:367-372 | on an empty queue every push and every pop of the `capacity / 2 + 1` rounds succeeds, and the queue ends empty |
| PosixBoundedQueue.BoundaryScenario | src/system/posix/posix-bounded-queue.c:338-373 | a new queue of capacity 5 is empty and not full, takes the five squares and refuses a sixth, pops them in order, and is empty after the rounds |
| PosixBoundedQueue.CloseScenario | src/system/posix/posix-bounded-queue.c:140-297 | after close, the waiting push refuses but the try push succeeds; the waiting pop drains 7, 8, 5 and then fails |
| PosixBoundedQueue.NullHandleScenario | src/system/posix/posix-bounded-queue.c:86-249 | on a NULL handle: empty, not full, and every push and pop fails |
| Heap.SwapSlots | src/data-structures/max-heap.cpp:39-40 | exchanges two slots, leaves every other slot alone, and keeps the multiset of slots |
| Heap.SwapKeepsElements | src/data-structures/max-heap.cpp:69 | swapping two slots from index 1 on keeps the stored elements |
| Heap.SinkStep | src/data-structures/max-heap.cpp:58-70 | swapping a slot with its larger child moves the heap violation down to that child, whose new parent covers its children |
| Heap.LiftStep | src/data-structures/max-heap.cpp:78-83 | swapping a slot with a smaller parent moves the heap violation up to the parent |
| Heap.RootDominates | src/data-structures/max-heap.cpp:26-32 | in a heap, every slot is at most the root |
| Heap.RootIsMaximum | src/data-structures/max-heap.cpp:26-32 | in a non-empty heap, the root is at least every stored element |
| Heap.PopRemovesRoot | src/data-structures/max-heap.cpp:40-41 | swapping the root with the last slot and dropping the last slot removes exactly one copy of the old root |
| Heap.MaxHeap.constructor | src/data-structures/max-heap.cpp:10-12 | one unused slot and no elements |
| Heap.MaxHeap.FromVector | src/data-structures/max-heap.cpp:14-19 | the result is a heap whose elements are exactly those of the vector |
| Heap.MaxHeap.Empty | src/data-structures/max-heap.cpp:21-24 | `size < 2` exactly when no element is stored |
| Heap.MaxHeap.Top | src/data-structures/max-heap.cpp:26-32 | throws "Top: empty heap!" exactly on an empty heap; otherwise returns a stored element that is at least every stored element |
| Heap.MaxHeap.Pop | src/data-structures/max-heap.cpp:34-44 | throws "Pop: empty heap!" on an empty heap and changes nothing; otherwise removes one copy of the maximum and keeps the heap property |
| Heap.MaxHeap.Push | src/data-structures/max-heap.cpp:46-50 | adds one copy of the value and keeps the heap property |
| Heap.MaxHeap.MaxHeapify | src/data-structures/max-heap.cpp:53-72 | sinks a slot until the heap property holds below the starting bound; it permutes the elements and leaves the slots above the bound alone |
| Heap.MaxHeap.SiftUp | src/data-structures/max-heap.cpp:74-90 | lifting the one out-of-place slot restores the heap property and permutes the elements |
| Heap.MaxHeap.BuildHeap | src/data-structures/max-heap.cpp:92-96 | heapifying from `(n - 1) / 2` down to 1 gives a heap with the same elements |
| Heap.DrainStep | src/data-structures/max-heap.cpp:109-113 | appending the maximum of the remaining elements keeps the output non-increasing and conserves the elements |
| Heap.Drain | src/data-structures/max-heap.cpp:109-121 | the Top/Pop loop empties the heap and outputs its elements in non-increasing order (a heap sort) |
| Heap.BuildDrainScenario | src/data-structures/max-heap.cpp:115-121 | draining the heap built from {2, -3, 1, 4, 99, 15} gives those values in non-increasing order |
| Heap.PushDrainScenario | src/data-structures/max-heap.cpp:103-113 | pushing 1, 5, 7, 3 and draining gives those values in non-increasing order |
| BinarySearchTree.KeysAreInOrder | src/data-structures/binary-search-tree.cpp:40-52 | the in-order walk lists exactly the stored keys, duplicates included |
| BinarySearchTree.OrderedInOrderSorted | src/data-structures/binary-search-tree.cpp:40-52 | the in-order walk of an ordered tree is sorted |
| BinarySearchTree.InsertAddsKey | src/data-structures/binary-search-tree.cpp:83-114 | an insertion adds exactly one copy of the key |
| BinarySearchTree.InsertKeepsOrder | src/data-structures/binary-search-tree.cpp:88-113 | an insertion keeps the ordering invariant; an equal key goes right |
| BinarySearchTree.Span | src/data-structures/binary-search-tree.cpp:166-183 | a subtree occupies a contiguous slice of the in-order walk, starting at its offset |
| BinarySearchTree.KeyAtRank | src/data-structures/binary-search-tree.cpp:166-183 | the node a path reaches holds the key at that node's rank in the walk |
| BinarySearchTree.SortedEnds | src/data-structures/binary-search-tree.cpp:54-64 | the first key of a sorted walk is the least stored key, and the last is the greatest |
| BinarySearchTree.BinarySearchTree.constructor | src/data-structures/binary-search-tree.cpp:12 | the default tree is empty |
| BinarySearchTree.BinarySearchTree.Copy | src/data-structures/binary-search-tree.cpp:15-17 | the copy constructor gives a tree with the same shape and keys |
| BinarySearchTree.BinarySearchTree.Move | src/data-structures/binary-search-tree.cpp:29-31 | the move constructor takes the other tree's nodes and leaves the other tree empty |
| BinarySearchTree.BinarySearchTree.RootPtr | src/data-structures/binary-search-tree.cpp:191 | `root.get()` is non-null exactly on a non-empty tree, and points at the root node |
| BinarySearchTree.BinarySearchTree.ChildPtr | src/data-structures/binary-search-tree.cpp:125-126 | a child pointer is non-null exactly when that child node exists |
| BinarySearchTree.BinarySearchTree.ParentPtr | src/data-structures/binary-search-tree.cpp:124 | only the root has a null parent; every other node's parent is one step up |
| BinarySearchTree.BinarySearchTree.MinNode | src/data-structures/binary-search-tree.cpp:146-154 | null in, null out; otherwise the result has no left child and is the first node of the subtree in order |
| BinarySearchTree.BinarySearchTree.MaxNode | src/data-structures/binary-search-tree.cpp:156-164 | null in, null out; otherwise the result has no right child and is the last node of the subtree in order |
| BinarySearchTree.BinarySearchTree.SuccNode | src/data-structures/binary-search-tree.cpp:166-183 | the result is the node at the next rank in order; it is null exactly for the last node |
| BinarySearchTree.BinarySearchTree.InOrderPrint | src/data-structures/binary-search-tree.cpp:40-52 | the MinNode/SuccNode loop visits the whole in-order walk, duplicates included |
| BinarySearchTree.BinarySearchTree.Min | src/data-structures/binary-search-tree.cpp:54-58 | nullopt exactly on an empty tree; otherwise the least stored key, which is the first in order |
| BinarySearchTree.BinarySearchTree.Max | src/data-structures/binary-search-tree.cpp:60-64 | nullopt exactly on an empty tree; otherwise the greatest stored key, which is the last in order |
| BinarySearchTree.BinarySearchTree.Search | src/data-structures/binary-search-tree.cpp:66-81 | the descent finds the key exactly when it is stored somewhere in the tree |
| BinarySearchTree.BinarySearchTree.Insert | src/data-structures/binary-search-tree.cpp:83-114 | the descend-and-attach loop gives the reference insertion, so the tree stays ordered and gains the key |
| BinarySearchTree.CloneTree | src/data-structures/binary-search-tree.cpp:129-144 | the recursive clone has the same shape and keys as its source |
| BinarySearchTree.SwapTrees | src/data-structures/binary-search-tree.cpp:185-189 | the two trees exchange their roots |
| BinarySearchTree.AssignCopy | src/data-structures/binary-search-tree.cpp:19-27 | copy-and-swap: the target gets the other tree's shape and keys; the other tree is unchanged, and self-assignment is harmless |
| BinarySearchTree.AssignMove | src/data-structures/binary-search-tree.cpp:33-38 | the target gets the other tree; the other gets the target's old tree unless they are the same object |
| BinarySearchTree.SampleWalk | src/data-structures/binary-search-tree.cpp:199-212 | the ten inserts of `main` print -1, 1, 2, 2, 3, 3, 5, 5, 7, 8 |
| BinarySearchTree.SampleKeys | src/data-structures/binary-search-tree.cpp:199-208 | the sample tree stores the ten inserted keys |
| BinarySearchTree.BuildSample | src/data-structures/binary-search-tree.cpp:196-208 | the ten `Insert` calls build the sample tree |
| BinarySearchTree.QueryScenario | src/data-structures/binary-search-tree.cpp:210-216 | after the move, the walk is as above, Min is -1, Max is 8, -1 is found and -2 is not |
| BinarySearchTree.CopyMoveScenario | src/data-structures/binary-search-tree.cpp:218-227 | a moved-from tree is empty; a copy and a copy-assignment reproduce the walk |
| DoublyLinkedList.Node.constructor | src/data-structures/doubly-linked-list.cpp:63-69 | a new node holds its data, and both links are null |
| DoublyLinkedList.LinkedDistinct | src/data-structures/doubly-linked-list.cpp:68 | a `next` chain that ends in null visits no node twice |
| DoublyLinkedList.DoublyLinkedList.constructor | src/data-structures/doubly-linked-list.cpp:113-114 | a new list is empty: `head` and `tail` are null |
| DoublyLinkedList.DoublyLinkedList.WellFormed | src/data-structures/doubly-linked-list.cpp:113-114 | `head` and `tail` are null together, exactly on an empty list, and no node occurs twice |
| DoublyLinkedList.DoublyLinkedList.Prepend | src/data-structures/doubly-linked-list.cpp:9-20 | the value becomes the first element, in a fresh node, and the chain stays well formed |
| DoublyLinkedList.DoublyLinkedList.InsertAfter | src/data-structures/doubly-linked-list.cpp:72-89 | a fresh node with the value goes right after `x`; it becomes the tail when `x` was the tail |
| DoublyLinkedList.DoublyLinkedList.Remove | src/data-structures/doubly-linked-list.cpp:91-111 | `x` is unlinked and nothing else moves; `head` and `tail` follow when `x` was at an end |
| DoublyLinkedList.DoublyLinkedList.Append | src/data-structures/doubly-linked-list.cpp:22-28 | the value becomes the last element (by Prepend on an empty list, otherwise by InsertAfter the tail) |
| DoublyLinkedList.DoublyLinkedList.PopBack | src/data-structures/doubly-linked-list.cpp:30-34 | removes the last element; does nothing on an empty list |
| DoublyLinkedList.DoublyLinkedList.PopFront | src/data-structures/doubly-linked-list.cpp:36-40 | removes the first element; does nothing on an empty list |
| DoublyLinkedList.DoublyLinkedList.Search | src/data-structures/doubly-linked-list.cpp:42-48 | the forward walk finds the key exactly when some element equals it |
| DoublyLinkedList.DoublyLinkedList.Head | src/data-structures/doubly-linked-list.cpp:50-53 | null exactly on an empty list; otherwise the first element |
| DoublyLinkedList.DoublyLinkedList.Tail | src/data-structures/doubly-linked-list.cpp:55-58 | null exactly on an empty list; otherwise the last element |
| DoublyLinkedList.PrependThree | src/data-structures/doubly-linked-list.cpp:119-125 | three prepends onto an empty list give `[1, 2, 3]`, with head 1 and tail 3 |
| DoublyLinkedList.PrependPopBackScenario | src/data-structures/doubly-linked-list.cpp:119-139 | the heads and tails that `main` asserts through the prepends, the append and the four pops from the back |
| DoublyLinkedList.AppendThree | src/data-structures/doubly-linked-list.cpp:141-151 | three appends onto an empty list give `[1, 2, 3]`; the head stays 1 and the tail follows |
| DoublyLinkedList.ListSearchScenario | src/data-structures/doubly-linked-list.cpp:153-156 | 1, 2 and 3 are found and 4 is not |
| DoublyLinkedList.PopFrontScenario | src/data-structures/doubly-linked-list.cpp:158-163 | three pops from the front give the heads 2, 3 and then an empty list |
| LruCache.Locate | src/data-structures/lru-cache.cpp:34 | finds the first position holding the key, and nothing exactly when no pair has that key |
| LruCache.Touched | src/data-structures/lru-cache.cpp:71-76 | the node at `i` moves to the front; the nodes before it shift back by one; the others stay |
| LruCache.UnlinkedAt | src/data-structures/lru-cache.cpp:75 | unlinking a node that occurs once removes exactly its position |
| LruCache.Evicted | src/data-structures/lru-cache.cpp:78-86 | dropping from the back leaves a prefix of at most `cap` pairs; a list within capacity is unchanged, and a longer one keeps exactly `cap` |
| LruCache.LocateAt | src/data-structures/lru-cache.cpp:34 | with distinct keys, the position holding a key is the one `find` reports |
| LruCache.PutBounded | src/data-structures/lru-cache.cpp:32-49 | a cache within capacity stays within it after Put; overwriting an existing key keeps the size |
| LruCache.TouchedDistinct | src/data-structures/lru-cache.cpp:71-76 | moving a node to the front keeps the keys distinct |
| LruCache.PutSemantics | src/data-structures/lru-cache.cpp:32-49 | after Put: keys stay distinct; the key is most recently used and maps to the value unless capacity is 0; other keys keep their values or are evicted, and are never evicted on an overwrite |
| LruCache.GetSemantics | src/data-structures/lru-cache.cpp:51-59 | Get yields the stored value; a hit becomes most recently used; no key changes its value |
| LruCache.IndexTouched | src/data-structures/lru-cache.cpp:71-76 | splicing a node to the front is the touched order, and the index stays valid; nothing moves when the node is already first |
| LruCache.IndexPushed | src/data-structures/lru-cache.cpp:43-44 | a node for a new key can be put in front and indexed |
| LruCache.IndexDropped | src/data-structures/lru-cache.cpp:82-84 | erasing the back key and popping the back node keeps list and index in agreement |
| LruCache.Entry.constructor | src/data-structures/lru-cache.cpp:43 | a node holds its key and value |
| LruCache.LRUCache.Contents | src/data-structures/lru-cache.cpp:89 | the cache's pairs are its list nodes' pairs, most recently used first |
| LruCache.LRUCache.Distinct | src/data-structures/lru-cache.cpp:89-90 | a list that agrees with the index holds every key at most once |
| LruCache.LRUCache.Positions | src/data-structures/lru-cache.cpp:89-90 | the index locates each key at its list position, and misses a key the list does not hold |
| LruCache.LRUCache.constructor | src/data-structures/lru-cache.cpp:13-15 | an empty cache with the given capacity |
| LruCache.LRUCache.Capacity | src/data-structures/lru-cache.cpp:17-20 | returns the capacity the cache was built with |
| LruCache.LRUCache.Size | src/data-structures/lru-cache.cpp:22-25 | the number of cached pairs, never above the capacity |
| LruCache.LRUCache.Empty | src/data-structures/lru-cache.cpp:27-30 | empty exactly when no pair is cached |
| LruCache.LRUCache.Peek | src/data-structures/lru-cache.cpp:61-65 | the value under the key, or null, without reordering |
| LruCache.LRUCache.Touch | src/data-structures/lru-cache.cpp:71-76 | moves the node to the front; the index is unchanged |
| LruCache.LRUCache.PushFront | src/data-structures/lru-cache.cpp:43-44 | `emplace_front` followed by indexing the new node under its key |
| LruCache.LRUCache.EvictAsNeeded | src/data-structures/lru-cache.cpp:78-86 | the least recently used pairs are dropped until the capacity holds |
| LruCache.LRUCache.Put | src/data-structures/lru-cache.cpp:32-49 | the cache follows the reference `PutInto`: overwrite and touch, or insert at the front and evict |
| LruCache.LRUCache.PutCached | src/data-structures/lru-cache.cpp:35-40 | a cached key takes the new value and becomes most recently used, as `PutInto` says; no node is allocated |
| LruCache.LRUCache.PutNew | src/data-structures/lru-cache.cpp:42-48 | a new key goes in front and the least recently used pairs are evicted, as `PutInto` says |
| LruCache.LRUCache.Get | src/data-structures/lru-cache.cpp:51-59 | the result and the new order are those of the reference `GetFrom`: a hit is touched, a miss changes nothing |
| LruCache.FirstPut | src/data-structures/lru-cache.cpp:95-106 | a capacity-5 cache starts empty; after one Put, both Peek and Get see 111 |
| LruCache.Overwrite | src/data-structures/lru-cache.cpp:108-110 | putting the same key again overwrites its value and keeps one entry |
| LruCache.SecondKey | src/data-structures/lru-cache.cpp:112-114 | a second key gives size 2, and both Peek and Get see 333 |
| AdjMatrix.RowStartIsProduct | src/stl/mdspan-adj-matrix.cpp:24-25 | the row-major view puts row `u` at flat index `u * n` |
| AdjMatrix.RowsOrdered | src/stl/mdspan-adj-matrix.cpp:24-25 | a row ends before any later row starts |
| AdjMatrix.FlatIndexInRange | src/stl/mdspan-adj-matrix.cpp:24-25 | every cell `[u, v]` of the view lies inside the `n * n` vector |
| AdjMatrix.FlatIndexUnique | src/stl/mdspan-adj-matrix.cpp:24-25 | distinct cells of the view are distinct vector elements |
| AdjMatrix.Graph.Weight | src/stl/mdspan-adj-matrix.cpp:57 | `matrixView[u, v]` reads the flat cell `u * n + v`, which is in bounds |
| AdjMatrix.Graph.constructor | src/stl/mdspan-adj-matrix.cpp:23-30 | `n` vertices; the diagonal is 0 and every other cell is `INF` |
| AdjMatrix.Graph.Copy | src/stl/mdspan-adj-matrix.cpp:32-36 | the same vertex count, and a vector of its own with the same cells |
| AdjMatrix.Graph.Assign | src/stl/mdspan-adj-matrix.cpp:38-42 | copy-and-swap: the target gets storage of its own holding the source's cells |
| AdjMatrix.Graph.SetCell | src/stl/mdspan-adj-matrix.cpp:50 | a write through the view changes that one cell and no other |
| AdjMatrix.Graph.AddEdge | src/stl/mdspan-adj-matrix.cpp:46-53 | both `[u, v]` and `[v, u]` get the weight when both vertices exist and differ, and otherwise nothing changes; symmetry and the zero diagonal are kept |
| AdjMatrix.Graph.IsConnected | src/stl/mdspan-adj-matrix.cpp:55-58 | true exactly when both vertices exist and the cell is not `INF` |
| AdjMatrix.Graph.GetNumVerts | src/stl/mdspan-adj-matrix.cpp:60-63 | returns the vertex count |
| AdjMatrix.Graph.ConnectedSymmetric | src/stl/mdspan-adj-matrix.cpp:46-58 | in a symmetric matrix, `u` is connected to `v` exactly when `v` is connected to `u` |
| AdjMatrix.Graph.SelfConnected | src/stl/mdspan-adj-matrix.cpp:27-29 | while the diagonal is 0, every vertex is connected to itself |
| AdjMatrix.SwapGraphs | src/stl/mdspan-adj-matrix.cpp:72-78 | the friend swap exchanges the vertex counts and the matrices |
| AdjMatrix.NewGraphUndirected | src/stl/mdspan-adj-matrix.cpp:23-30 | a new graph is symmetric with a zero diagonal, and no two distinct vertices are connected |
| AdjMatrix.BuildG1 | src/stl/mdspan-adj-matrix.cpp:106-113 | the seven edges of `g1`, including 0-1 of weight 4, 1-3 of weight 6 and 4-0 of weight 7 |
| AdjMatrix.CopyAndEdit | src/stl/mdspan-adj-matrix.cpp:120-126 | the copy `g2` and the assigned `g3` have storage of their own: `g3`'s edit leaves `g2` at 7 |
| AdjMatrix.GraphScenario | src/stl/mdspan-adj-matrix.cpp:104-138 | 1-3 and 0-4 are connected in `g1`, and the edits of the copies leave `g1`'s edge 0-1 at 4 |
| RuleOfFiveSwap.MyArray.Contents | src/idioms/rule-of-5-swap.cpp:99-100 | the elements are the `size` cells the pointer owns |
| RuleOfFiveSwap.MyArray.constructor | src/idioms/rule-of-5-swap.cpp:13-16 | no storage and no elements |
| RuleOfFiveSwap.MyArray.WithSize | src/idioms/rule-of-5-swap.cpp:24-27 | fresh storage holding `size` value-initialised elements |
| RuleOfFiveSwap.MyArray.Copy | src/idioms/rule-of-5-swap.cpp:29-44 | fresh storage holding the other array's elements |
| RuleOfFiveSwap.MyArray.Move | src/idioms/rule-of-5-swap.cpp:46-49 | takes over the storage and the size; the other array is left empty with a null pointer |
| RuleOfFiveSwap.MyArray.Assign | src/idioms/rule-of-5-swap.cpp:54-59 | by-value assignment: the target ends with fresh storage holding the source's elements |
| RuleOfFiveSwap.MyArray.Equals | src/idioms/rule-of-5-swap.cpp:61-73 | true exactly when the sizes and all elements agree |
| RuleOfFiveSwap.MyArray.NotEquals | src/idioms/rule-of-5-swap.cpp:75-78 | true exactly when the contents differ |
| RuleOfFiveSwap.MyArray.Size | src/idioms/rule-of-5-swap.cpp:80-83 | the number of elements |
| RuleOfFiveSwap.MyArray.Get | src/idioms/rule-of-5-swap.cpp:85-88 | reading through `operator[]` at an index in range yields that element |
| RuleOfFiveSwap.MyArray.Set | src/idioms/rule-of-5-swap.cpp:85-88 | writing through the returned reference changes that one element |
| RuleOfFiveSwap.Swap | src/idioms/rule-of-5-swap.cpp:91-97 | the hidden friend exchanges the storage pointers and the sizes |
| RuleOfFiveSwap.FooScenario | src/idioms/rule-of-5-swap.cpp:114-130 | after the assignment the 8-element target is a 6-element copy whose first value is 1234 |
| RuleOfFiveSwap.IntScenario | src/idioms/rule-of-5-swap.cpp:132-141 | the arrays differ before the assignment; afterwards both hold 33 at index 1 and compare equal |
| RuleOfFiveSwap.MoveScenario | src/idioms/rule-of-5-swap.cpp:46-49 | moving out of a 3-element array leaves the source with size 0 and the target with the elements |
| BinarySearch.Search | src/algo/binary_search.cpp:5-30 | a hit is always a real occurrence; on a sorted container a miss means the value is absent (and an empty container misses at once) |
| BinarySearch.LowerBound | src/algo/binary_search.cpp:32-48 | the result lies in `[0, size]`; the element before it is below the value and the one at it is not; on sorted input it is the lower bound |
| BinarySearch.UpperBound | src/algo/binary_search.cpp:50-66 | the result lies in `[0, size]`; the element before it is at most the value and the one at it is above; on sorted input it is the upper bound |
| BinarySearch.BelowLowerBound | src/algo/binary_search.cpp:41-44 | everything before the lower bound is below the value |
| BinarySearch.BelowUpperBound | src/algo/binary_search.cpp:59-62 | everything before the upper bound is at most the value |
| BinarySearch.EqualRange | src/algo/binary_search.cpp:32-66 | the lower bound is at most the upper bound, and an index lies between them exactly when it holds the value |
| BinarySearch.LowerBoundUnique | src/algo/binary_search.cpp:32-48 | each value has at most one lower bound, so any loop meeting the boundary property gives the same answer |
| BinarySearch.UpperBoundUnique | src/algo/binary_search.cpp:50-66 | each value has at most one upper bound |
| BinarySearch.SearchScenario | src/algo/binary_search.cpp:70-79 | `binary_search` misses on the empty vector, and finds 10, 101 and 1 but not 65 or -18 in the ten-element vector |
| BinarySearch.LowerBoundScenario | src/algo/binary_search.cpp:81-86 | the `lower_bound` answers `main` asserts for 102, 1, -1, 10, 56 and 2 |
| BinarySearch.UpperBoundScenario | src/algo/binary_search.cpp:88-93 | the `upper_bound` answers `main` asserts for 102, 1, -1, 10, 56 and 2 |
| ConcurrentQsort.PermutedRange | src/concurrent/algo/concurrent-qsort.cpp:29 | rearranging within a range keeps that range's multiset |
| ConcurrentQsort.PermutedBounds | src/concurrent/algo/concurrent-qsort.cpp:39-40 | a bound on every element of a range survives any rearrangement of that range |
| ConcurrentQsort.PermutedTrans | src/concurrent/algo/concurrent-qsort.cpp:29-40 | two rearrangements within one range combine into one |
| ConcurrentQsort.PermutedWiden | src/concurrent/algo/concurrent-qsort.cpp:39-40 | a rearrangement within a sub-range is one within the whole range |
| ConcurrentQsort.IterSwap | src/concurrent/algo/concurrent-qsort.cpp:36 | `iter_swap` exchanges two elements and rearranges nothing else |
| ConcurrentQsort.Partition | src/concurrent/algo/concurrent-qsort.cpp:29 | the range is rearranged so that the elements below the pivot come first, and the result is where the others start |
| ConcurrentQsort.PlacePivot | src/concurrent/algo/concurrent-qsort.cpp:28-36 | after the partition and the pivot swap, the pivot sits at `divide - 1`, with smaller elements before it and the others after it |
| ConcurrentQsort.QuickSort | src/concurrent/algo/concurrent-qsort.cpp:12-41 | the range ends sorted and is a permutation of itself; nothing outside it changes |
| ConcurrentQsort.SwapKeepsSplit | src/concurrent/algo/concurrent-qsort.cpp:36 | swapping the pivot to the end of the smaller part keeps the split around it |
| ConcurrentQsort.SortedJoin | src/concurrent/algo/concurrent-qsort.cpp:39-40 | a sorted part below the pivot, the pivot, and a sorted part not below it form a sorted range |
| ConcurrentQsort.Sort | src/concurrent/algo/concurrent-qsort.cpp:75-76 | sorting the whole vector gives a sorted permutation, which is what `is_sorted` asserts |
| ConcurrentQsort.EmptyRangeScenario | src/concurrent/algo/concurrent-qsort.cpp:15-16 | an empty range returns at once and changes nothing |
| CompileTimePrimeSieve.Filter | src/compile-time/compile-time-prime-sieve.cpp:17-36 | the filtered list is never longer than its input |
| CompileTimePrimeSieve.FilterMembers | src/compile-time/compile-time-prime-sieve.cpp:24-36 | `Filter` keeps exactly the elements that satisfy the predicate |
| CompileTimePrimeSieve.FilterIncreasing | src/compile-time/compile-time-prime-sieve.cpp:24-36 | filtering keeps a strictly increasing list strictly increasing |
| CompileTimePrimeSieve.FilterImplied | src/compile-time/compile-time-prime-sieve.cpp:24-36 | filtering first by a weaker predicate changes nothing |
| CompileTimePrimeSieve.Range | src/compile-time/compile-time-prime-sieve.cpp:59-70 | `Range<First, Last>` lists `First` up to `Last - 1` |
| CompileTimePrimeSieve.NotMultipleOf | src/compile-time/compile-time-prime-sieve.cpp:45-48 | `IsNotDivisible`: defined everywhere, rejects only multiples of the head and every multiple of a positive head; `SievedCandidates` and `SieveKeepsPrimes` use it as the filter that drops the head's multiples |
| CompileTimePrimeSieve.PrimeSieve | src/compile-time/compile-time-prime-sieve.cpp:38-57 | the sieve only keeps elements of its input |
| CompileTimePrimeSieve.HeadIsPrime | src/compile-time/compile-time-prime-sieve.cpp:42-51 | the head of a candidate list (increasing, from 2, every composite with a smaller divisor in it) is prime |
| CompileTimePrimeSieve.SievedCandidates | src/compile-time/compile-time-prime-sieve.cpp:45-50 | dropping the multiples of the head from the tail leaves a candidate list |
| CompileTimePrimeSieve.SieveKeepsPrimes | src/compile-time/compile-time-prime-sieve.cpp:38-57 | on a candidate list the sieve keeps exactly the primes |
| CompileTimePrimeSieve.RangeCandidates | src/compile-time/compile-time-prime-sieve.cpp:74 | `Range<2, N + 1>` is a candidate list |
| CompileTimePrimeSieve.GeneratePrimes | src/compile-time/compile-time-prime-sieve.cpp:72-76 | `GeneratePrimes<N>` holds only numbers from 2 to `N`; that it is exactly the primes up to `N` in increasing order is `GeneratePrimesCorrect` |
| CompileTimePrimeSieve.GeneratePrimesCorrect | src/compile-time/compile-time-prime-sieve.cpp:72-76 | `GeneratePrimes<N>` is exactly the primes up to `N`, in increasing order |
| CompileTimePrimeSieve.PrimeBySmallDivisors | src/compile-time/compile-time-prime-sieve.cpp:98 | once `p * p > i`, having no divisor below `p` is the same as being prime, so the outer loop may stop there |
| CompileTimePrimeSieve.PrimeSieveFn | src/compile-time/compile-time-prime-sieve.cpp:90-104 | the returned array marks exactly the primes up to `N` |
| CompileTimePrimeSieve.CompositeStep | src/compile-time/compile-time-prime-sieve.cpp:99 | skipping an unmarked (composite) `p` loses nothing: its multiples already have a smaller divisor |
| CompileTimePrimeSieve.CrossOff | src/compile-time/compile-time-prime-sieve.cpp:100-101 | clearing from `p * p` in steps of `p` unmarks exactly the numbers whose least divisor is `p` |
| CompileTimePrimeSieve.MarkedPrimes | src/compile-time/compile-time-prime-sieve.cpp:110-127 | over a sieve that marks the primes, the marked indices from 2 on are the primes in increasing order |
| CompileTimePrimeSieve.CountPrime | src/compile-time/compile-time-prime-sieve.cpp:106-114 | the count is the number of marked indices from 2 on |
| CompileTimePrimeSieve.GetPrimes | src/compile-time/compile-time-prime-sieve.cpp:116-129 | the result array has exactly `CountPrime` slots, which hold the primes up to `N` in increasing order |
| CompileTimePrimeSieve.PrimesStep | src/compile-time/compile-time-prime-sieve.cpp:122-127 | the primes up to `n` are those up to `n - 1`, followed by `n` when it is prime |
| CompileTimePrimeSieve.SmallPrimes | src/compile-time/compile-time-prime-sieve.cpp:131-140 | the primes up to 1, 2, 3, 5, 6, 7 and 10 |
| CompileTimePrimeSieve.CountUpTo | src/compile-time/compile-time-prime-sieve.cpp:131-136 | `CountPrime(PrimeSieveFn<N>())` is the number of primes up to `N` |
| CompileTimePrimeSieve.CountScenario | src/compile-time/compile-time-prime-sieve.cpp:131-136 | the six `static_assert`ed counts 0, 1, 2, 3, 3 and 4 |
| CompileTimePrimeSieve.SieveScenario | src/compile-time/compile-time-prime-sieve.cpp:138-146 | `GetPrimes<10>()` holds 2, 3, 5 and 7, which is also `GeneratePrimes<10>` |
| MergeIntervals.IntervalOverlap | src/compile-time/compile-time-merge-intervals.cpp:6-23 | two intervals overlap unless one of them ends before the other starts (the De Morgan form used in the source) |
| MergeIntervals.OverlapSymmetric | src/compile-time/compile-time-merge-intervals.cpp:11-22 | overlap does not depend on the order of the arguments, which the source relies on |
| MergeIntervals.OverlapIsSharedPoint | src/compile-time/compile-time-merge-intervals.cpp:6-23 | well-formed intervals overlap exactly when they share an integer point |
| MergeIntervals.TouchingAndSeparated | src/compile-time/compile-time-merge-intervals.cpp:25-28 | intervals that touch at an endpoint overlap both ways; intervals with a gap do not |
| MergeIntervals.Max | src/compile-time/compile-time-merge-intervals.cpp:43 | `std::max` is one of its arguments and at least both |
| MergeIntervals.Merge | src/compile-time/compile-time-merge-intervals.cpp:39-52 | the loop emits between one interval and one per input; the first starts where the current interval starts and ends no earlier |
| MergeIntervals.MergeSortedSpec | src/compile-time/compile-time-merge-intervals.cpp:31-55 | empty input gives empty output; the output is never longer than the input and starts where the input starts |
| MergeIntervals.MergeSorted | src/compile-time/compile-time-merge-intervals.cpp:31-55 | the loop over `curr` and `merged` returns the merge described by `MergeSortedSpec` |
| MergeIntervals.MergeSeparated | src/compile-time/compile-time-merge-intervals.cpp:39-52 | from start-sorted, well-formed input, the merge gives well-formed intervals, each ending before the next one starts |
| MergeIntervals.MergeSortedSeparated | src/compile-time/compile-time-merge-intervals.cpp:31-55 | consecutive output intervals do not overlap, and their starts strictly increase |
| MergeIntervals.MergeCovers | src/compile-time/compile-time-merge-intervals.cpp:39-52 | the loop covers exactly the points that the current interval and the remaining ones cover |
| MergeIntervals.CoversCons | src/compile-time/compile-time-merge-intervals.cpp:47-48 | a point is covered by a list with one more interval exactly when that interval or the rest covers it |
| MergeIntervals.CoversWidened | src/compile-time/compile-time-merge-intervals.cpp:41-44 | widening the current interval over one it overlaps covers the same points as the two together |
| MergeIntervals.MergeSortedCovers | src/compile-time/compile-time-merge-intervals.cpp:31-55 | on sorted, well-formed input, the merge covers exactly the points the input covers |
| MergeIntervals.OverlapExamples | src/compile-time/compile-time-merge-intervals.cpp:25-28 | the four `static_assert`s on `IntervalOverlap` |
| MergeIntervals.MergeExamples | src/compile-time/compile-time-merge-intervals.cpp:57-61 | the five `static_assert`s on `MergeSorted` |
| Factorial.Factorial | src/compile-time/compile-time-constexpr.cpp:2-5 | for `n >= 0` the factorial is at least 1 and at least `n` |
| Factorial.FactorialDivisible | src/compile-time/compile-time-constexpr.cpp:2-5 | every number from 1 to `n` divides the factorial of `n` |
| Factorial.FactorialMonotone | src/compile-time/compile-time-constexpr.cpp:2-5 | the factorial never decreases |
| Factorial.FactorialFitsInt32 | src/compile-time/compile-time-constexpr.cpp:2-5 | the `int` result is defined exactly for `n <= 12`; from 13 on it overflows |
| Factorial.FactorialTable | src/compile-time/compile-time-constexpr.cpp:7-10 | the `static_assert`ed values, plus the values at 12 and 13 on both sides of the 32-bit limit |
| ParseInt.DigitValue | src/compile-time/compile-time-parse-int.cpp:37 | `ch - '0'` is a single decimal digit |
| ParseInt.DigitsValuePrefix | src/compile-time/compile-time-parse-int.cpp:27-38 | a longer digit run has at least the value of its prefix, so the accumulator only grows in magnitude |
| ParseInt.FindFirstNotOf | src/compile-time/compile-time-parse-int.cpp:14-15 | the result lies between `from` and the length (the length stands for `npos`) |
| ParseInt.FindFirstNotOfSkips | src/compile-time/compile-time-parse-int.cpp:9-15 | every skipped character is a blank, and the character found is not |
| ParseInt.DigitRunEnd | src/compile-time/compile-time-parse-int.cpp:27-31 | the run from `from` is all digits, and ends at the end of the text or at a non-digit |
| ParseInt.ParseIntCxx17 | src/compile-time/compile-time-parse-int.cpp:12-41 | 0 for blank or empty text; otherwise the sign times the value of the digits after the blanks and at most one sign; overflow is excluded because C++ leaves it undefined |
| ParseInt.AccumulateDigits | src/compile-time/compile-time-parse-int.cpp:26-38 | the loop ends with the sign times the value of the whole digit run |
| ParseInt.AccumulateDigit | src/compile-time/compile-time-parse-int.cpp:37 | `val * 10 + sign * digit` is the sign times the value of the run one digit longer |
| ParseInt.PrefixFits | src/compile-time/compile-time-parse-int.cpp:37 | while the whole run fits in an `int`, so does every prefix, so no step overflows |
| ParseInt.FromChars | src/compile-time/compile-time-parse-int.cpp:57 | `from_chars` consumes nothing exactly on `invalid_argument`; on any error it leaves the value alone; a success is in the `int` range |
| ParseInt.FromCharsStart | src/compile-time/compile-time-parse-int.cpp:51-53 | skipping one `+` stays within the text |
| ParseInt.MaybeParseIntCxx23 | src/compile-time/compile-time-parse-int.cpp:45-62 | a value, when returned, is in the `int` range |
| ParseInt.ErrorOrParseIntCxx23 | src/compile-time/compile-time-parse-int.cpp:66-83 | a value, when returned, is in the `int` range; an error is never `errc{}` |
| ParseInt.VariantsAgree | src/compile-time/compile-time-parse-int.cpp:45-83 | the two C++23 variants succeed on the same texts with the same value |
| ParseInt.ParsersAgree | src/compile-time/compile-time-parse-int.cpp:12-83 | on text that starts a number with an `int` value, all three parsers return that value |
| ParseInt.ErrorKinds | src/compile-time/compile-time-parse-int.cpp:66-83 | `invalid_argument` exactly when no digits follow the blanks and the optional signs; `result_out_of_range` only for a value beyond `int` |
| ParseInt.DigitRunShift | src/compile-time/compile-time-parse-int.cpp:57 | the digit run of the view `from_chars` gets is the caller's run, shifted |
| ParseInt.SignedDigits | src/compile-time/compile-time-parse-int.cpp:18-38 | an optional sign followed by digits up to the end reads as the signed value of those digits |
| ParseInt.ExamplePlain | src/compile-time/compile-time-parse-int.cpp:87-107 | "123" reads as 123 in all three parsers |
| ParseInt.ExamplePlusSign | src/compile-time/compile-time-parse-int.cpp:88-108 | "+123" reads as 123 in all three parsers |
| ParseInt.ExampleMinusSign | src/compile-time/compile-time-parse-int.cpp:89-109 | "-123" reads as -123 in all three parsers |
| ParseInt.ExampleBlanks | src/compile-time/compile-time-parse-int.cpp:90-110 | "   456   " reads as 456 in all three parsers |
| ParseInt.ExampleInt32Max | src/compile-time/compile-time-parse-int.cpp:94-114 | "2147483647" reads as the largest `int` |
| ParseInt.ExampleInt32Min | src/compile-time/compile-time-parse-int.cpp:95-115 | "-2147483648" reads as the smallest `int` |
| ParseInt.LeadingNonDigit | src/compile-time/compile-time-parse-int.cpp:20-31 | text whose first character is not a blank, a sign or a digit gives 0, nullopt and `invalid_argument` |
| ParseInt.ExampleLettersFirst | src/compile-time/compile-time-parse-int.cpp:91-111 | "abc123def" gives 0, nullopt and `invalid_argument` |
| ParseInt.ExampleEmpty | src/compile-time/compile-time-parse-int.cpp:92-112 | "" gives 0, nullopt and `invalid_argument` |
| ParseInt.ExampleNoDigits | src/compile-time/compile-time-parse-int.cpp:93-113 | "abcdef" gives 0, nullopt and `invalid_argument` |
| ParseInt.ExampleOutOfRange | src/compile-time/compile-time-parse-int.cpp:116-118 | "9999999999" gives `result_out_of_range`, and its value does not fit the `int` that `parseIntCxx17` would return |
| ParseInt.Cxx17Examples | src/compile-time/compile-time-parse-int.cpp:87-95 | the nine `static_assert`s on `parseIntCxx17`, through the method itself |
| IpPacketParser.GetBe16 | src/system/net/ip_packet_parser.cpp:35-41 | throws "get_be16" unless two bytes are left; otherwise the high byte is `data[off]` and the low byte `data[off + 1]` |
| IpPacketParser.GetBe32 | src/system/net/ip_packet_parser.cpp:43-50 | throws "get_be32" unless four bytes are left; the `uint16_t` return keeps only the 16-bit value at `off + 2` |
| IpPacketParser.DecodeEth | src/system/net/ip_packet_parser.cpp:66-81 | nullopt exactly when the buffer is under 14 bytes; throws exactly when the ethertype lies past the end, with `off` already moved by 12; otherwise the addresses from bytes 0-11, the ethertype at `off + 12`, and `off + 14` |
| IpPacketParser.ParseEth | src/system/net/ip_packet_parser.cpp:66-81 | the step-by-step parser, with its update of `off`, yields the outcome and offset of `DecodeEth` |
| IpPacketParser.DecodeIpv4 | src/system/net/ip_packet_parser.cpp:104-137 | never throws; nullopt exactly when the 20 bytes are missing, the version is not 4, the length is under 5 words or the header runs past the buffer; otherwise `off` grows by exactly `4 * ihl` |
| IpPacketParser.ParseIpv4 | src/system/net/ip_packet_parser.cpp:104-137 | the field-by-field parser agrees with `DecodeIpv4` |
| IpPacketParser.DecodeUdp | src/system/net/ip_packet_parser.cpp:154-168 | throws exactly when fewer than 8 bytes are left, leaving `off` alone; otherwise `off` grows by 8 |
| IpPacketParser.ParseUdp | src/system/net/ip_packet_parser.cpp:154-168 | the field-by-field parser agrees with `DecodeUdp` |
| IpPacketParser.DecodeTcp | src/system/net/ip_packet_parser.cpp:213-239 | throws exactly when fewer than `sizeof(TCP_Header)` bytes are left or the data offset runs past the buffer, leaving `off` alone; otherwise `off` grows by 4 times the data offset |
| IpPacketParser.ParseTcp | src/system/net/ip_packet_parser.cpp:213-239 | the field-by-field parser agrees with `DecodeTcp` |
| IpPacketParser.HexDigit | src/system/net/ip_packet_parser.cpp:245 | a lower-case hexadecimal digit that reads back as its value |
| IpPacketParser.Hex2 | src/system/net/ip_packet_parser.cpp:245-251 | `setw(2)` with fill `0` gives exactly two digits, which read back as the byte |
| IpPacketParser.MacToStr | src/system/net/ip_packet_parser.cpp:242-256 | the loop writes the six bytes in `MacString` form |
| IpPacketParser.MacString | src/system/net/ip_packet_parser.cpp:242-256 | the reference text of `mac_to_str`: empty for no bytes, otherwise three characters per byte less one; its digits and colons are placed by `MacStringLayout` |
| IpPacketParser.MacStringLayout | src/system/net/ip_packet_parser.cpp:247-253 | three characters per byte less one; each byte reads back from its two digits; a `:` between bytes |
| IpPacketParser.MacStringSnoc | src/system/net/ip_packet_parser.cpp:249-251 | one more byte appends `:` and its two digits |
| IpPacketParser.MacString6 | src/system/net/ip_packet_parser.cpp:242-256 | a six-byte address is its six digit pairs joined by colons |
| IpPacketParser.Decimal | src/system/net/ip_packet_parser.cpp:262-265 | `operator<<` on an unsigned writes at least one digit and no leading zero, and at most three digits below 1000 |
| IpPacketParser.DecimalValue | src/system/net/ip_packet_parser.cpp:262-265 | the digits written read back as the number |
| IpPacketParser.IpToStr | src/system/net/ip_packet_parser.cpp:258-268 | `ip_to_str` writes 7 to 15 characters; which ones is `IpToStrOctets` (four decimals joined by dots) and `ShortAddressPrints` |
| IpPacketParser.IpToStrOctets | src/system/net/ip_packet_parser.cpp:258-268 | the address with octets `a.b.c.d` prints as those four decimals, in that order |
| IpPacketParser.OctetsShift | src/system/net/ip_packet_parser.cpp:262-265 | the shifts by 24, 16 and 8 with the `0xFF` mask recover the four bytes |
| IpPacketParser.ShortAddressPrints | src/system/net/ip_packet_parser.cpp:258-268 | an address below 2^16 prints as `0.0.` followed by its two low octets |
| IpPacketParser.Ipv4AddressesPrintShort | src/system/net/ip_packet_parser.cpp:127-128 | every address the IPv4 parser returns prints with `0.0.` in front |
| IpPacketParser.SampleSourcePrints | src/system/net/ip_packet_parser.cpp:305 | the first sample's source, 192.168.1.100 on the wire, prints as 0.0.1.100 |
| IpPacketParser.SampleDstMac | src/system/net/ip_packet_parser.cpp:286 | the first sample's destination prints as 00:11:22:33:44:55 |
| IpPacketParser.SampleSrcMac | src/system/net/ip_packet_parser.cpp:287 | the first sample's source prints, in lower case, as 66:77:88:99:aa:bb |
| IpPacketParser.Be16Bytes | src/system/net/ip_packet_parser.cpp:40 | a 16-bit field takes two bytes on the wire |
| IpPacketParser.Be32Bytes | src/system/net/ip_packet_parser.cpp:48-49 | a 32-bit field takes four bytes on the wire |
| IpPacketParser.ReadBe16 | src/system/net/ip_packet_parser.cpp:35-41 | `get_be16` reads back the value written big-endian |
| IpPacketParser.ReadBe32 | src/system/net/ip_packet_parser.cpp:43-50 | `get_be32` reads back only the low 16 bits of the 32-bit value written |
| IpPacketParser.EncodeIpv4 | src/system/net/ip_packet_parser.cpp:84-102 | an encoded IPv4 header takes `4 * ihl` bytes |
| IpPacketParser.Ipv4Layout | src/system/net/ip_packet_parser.cpp:111-128 | the byte offsets of the IPv4 fields, as the parser reads them |
| IpPacketParser.Ipv4RoundTrip | src/system/net/ip_packet_parser.cpp:104-137 | decoding an encoded header at any offset gives back every field, the addresses cut to 16 bits, and moves `off` past the options |
| IpPacketParser.EncodeEth | src/system/net/ip_packet_parser.cpp:57-64 | an encoded Ethernet header takes 14 bytes |
| IpPacketParser.EthRoundTrip | src/system/net/ip_packet_parser.cpp:66-81 | a frame starting with an encoded Ethernet header decodes to it, and `off` moves from 0 to 14 |
| IpPacketParser.EncodeUdp | src/system/net/ip_packet_parser.cpp:142-152 | an encoded UDP header takes 8 bytes |
| IpPacketParser.UdpRoundTrip | src/system/net/ip_packet_parser.cpp:154-168 | decoding an encoded UDP header at any offset gives it back and moves `off` by 8 |
| IpPacketParser.EncodeTcp | src/system/net/ip_packet_parser.cpp:171-197 | an encoded TCP header takes 4 times its data offset in bytes |
| IpPacketParser.TcpLayout | src/system/net/ip_packet_parser.cpp:219-229 | the byte offsets of the TCP fields, as the parser reads them |
| IpPacketParser.TcpRoundTrip | src/system/net/ip_packet_parser.cpp:213-239 | with 32 bytes left, decoding an encoded header gives back every field, seq and ack cut to 16 bits, and moves `off` past the options |
| IpPacketParser.TcpNeedsStructSize | src/system/net/ip_packet_parser.cpp:215-216 | a valid TCP header ending less than 12 bytes before the end of the buffer is rejected with "TCP Header insufficient buffer size!" |
| IpPacketParser.DecodeFrame | src/system/net/ip_packet_parser.cpp:270-344 | no Ethernet result exactly for a frame under 14 bytes; a full packet has ethertype 0x0800, TCP exactly for protocol 6 and UDP exactly for protocol 17 |
| IpPacketParser.ParseAndPrint | src/system/net/ip_packet_parser.cpp:270-344 | threading one `off` through the parsers gives `DecodeFrame` |
| IpPacketParser.FrameErrors | src/system/net/ip_packet_parser.cpp:276-336 | from offset 0 the Ethernet parser never throws and leaves `off` at 14 (the source's `assert`); only the TCP and UDP parsers can throw |
| IpPacketParser.TcpFrameRoundTrip | src/system/net/ip_packet_parser.cpp:270-333 | an encoded Ethernet/IPv4/TCP frame with a payload decodes to its headers and payload, the 32-bit fields cut to 16 bits |
| IpPacketParser.UdpFrameRoundTrip | src/system/net/ip_packet_parser.cpp:334-343 | an encoded Ethernet/IPv4/UDP frame decodes to its headers, the addresses cut to 16 bits |
| IpPacketParser.TcpHttpParts | src/system/net/ip_packet_parser.cpp:20-25 | each part of the first sample frame is the encoding of its header |
| IpPacketParser.SampleTcpHttp | src/system/net/ip_packet_parser.cpp:346-351 | the first sample decodes to its headers and its HTTP payload, with the addresses read as 0x0164 and 0x152A |
| IpPacketParser.UdpDnsParts | src/system/net/ip_packet_parser.cpp:27-30 | each part of the second sample frame is the encoding of its header |
| IpPacketParser.SampleUdpDns | src/system/net/ip_packet_parser.cpp:353-354 | the second sample decodes to its headers, with the addresses read as 0x0001 and 0x0808 |

## Left out

- Threads and synchronisation are not modelled: mutexes, condition variables, `notify_*` and `pthread_cond_*` calls, `osyncstream`. A blocking wait becomes one `Blocked` or `Fired` step, so fairness, spurious wake-ups and interleavings are outside the model.
- The producer/consumer threads of both bounded-queue programs are not modelled (`produce` and `consume` in the POSIX program, the `main` threads of the lock-based one), nor the totals they print. Sequential scenarios cover the same queue behaviour.
- `queue_init`'s allocation failures and the unwinding after them are left out: Dafny allocation does not fail.
- The POSIX `exit(1)` paths are left out. They follow a failed `pthread_*` call, and those calls are not modelled.
- `queue_destroy` and every destructor are left out, because memory is not freed in Dafny. Ownership through `unique_ptr`, `delete[]` and `free` is therefore not modelled either.
- `queue_print`, `Output`, `printGraph` and the console output of `main`, `InOrderPrint` and `parse_and_print` are left out. Only the values these functions compute are modelled (the key sequence, the decoded headers, the address strings), not the text they print.
- `ConcurrentQuickSort` is not modelled. It is `QuickSort` with one recursive call run through `std::async`, which leaves the result the same. `main`'s `atoi` of the command line and its `rand` fill are left out too; `Sort` states the `is_sorted` assertion for any input.
- `std::partition` is modelled by its standard contract. `Partition` is an implementation that meets it, and `QuickSort` relies only on that contract.
- `ParseInt.ParseIntCxx17`: the precondition excludes inputs whose value does not fit an `int`, because the source's own `parseIntCxx17("9999999999")` overflows a signed `int`, which C++ leaves undefined.
- `Factorial.Factorial` is computed on unbounded integers. The `int` overflow from 13 on is stated by `FactorialFitsInt32`, not built into the function. Its precondition `n >= 0` reflects the source: on a negative `n` the recursion never reaches 0 and runs into signed overflow, which C++ leaves undefined, so negative inputs have no defined result to model.
- Unsigned `size_t` wrap-around is not modelled; indices and sizes are `nat`. The one place where the source depends on it is `binary_search`'s `high = size() - 1`, which is stored in an `int` and is modelled as -1.
- `AdjMatrix.Graph.constructor`: the overflow of `numVerts * numVerts` for huge graphs is not modelled.
- Graph's defaulted move assignment (line 44) is not modelled separately: it moves the members, and the by-value `Assign` covers the observable result.
- `GetAdjacencyMatrix`, which returns a read-only `mdspan` view, is modelled through `Graph.Weight` and not as a method of its own.
- The TCP `Flags` output operator and the payload printing of `parse_and_print` are left out; flags are kept as the raw byte.
- `get_be32`'s `<< 24` on a promoted `int` overflows for bytes of 0x80 and up. The model keeps only what survives the conversion to `uint16_t`, the low 16 bits, which does not depend on that overflow.
- IPv4 and TCP checksums are not verified, and neither does the source verify them.
- `Heap` and `BinarySearchTree` fix the element type to `int`; the source templates need only `<` and `>`.
- `BinarySearchTree`: node identity and parent pointers are represented by paths from the root. Parent-pointer consistency therefore holds by construction instead of being proved about a linked heap structure.
- `IpPacketParser.SampleSourcePrints` states only the source address of the first sample. The general `ShortAddressPrints` covers every address.
- The value-initialised element of a sized `MyArray` (`T{}`) is passed as a parameter, since Dafny has no default values for a type parameter.
