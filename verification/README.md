# Verified models of the CppPlayground components

Each component of the playground has a Dafny model that follows its code branch by branch, and
proofs of what the component is for. `dafny verify dfyconfig.toml` checks everything.

| file | component |
|---|---|
| `BlockingQueue.dfy` | `BoundedBlockingQueue`: a monitor with two condition variables, as a transition system over any number of threads, and the queue object whose methods are its atomic steps |
| `SpscQueue.dfy` | `LFSPSCQueue`: the atomic actions of both sides with stale acquire loads, and the ring object |
| `ArcProtocol.dfy` | `ArcPointer` and its control block: the reference-count protocol over any number of variables and threads |
| `ArcCalls.dfy`, `ArcAddresses.dfy` | whole calls of that protocol, and when `get()` returns the address of a destroyed object |
| `ArcPointer.dfy`, `ArcRefinement.dfy` | the pointer and control block objects, and the proof that calls on them are runs of the protocol |
| `LruCache.dfy` | `LRUCache`: the recency list, its history, the inclusion property, and the object with list nodes and a hash index |
| `MemoryPool.dfy` | `MemoryPool`: the intrusive free list |
| `FixedCapacityQueue.dfy`, `BoundedFifo.dfy` | `FixedCapacityQueue`, the bounded sequence it refines, and its agreement with the lock-free ring |
| `FixedCapacityVector.dfy`, `Storage.dfy` | `FixedCapacityVector` over raw storage with explicit object lifetimes |
| `MatrixView.dfy`, `Arithmetic.dfy` | `MatrixView` and `StridedMatrixView`, and integer facts shared by the models |
| `Gcd.dfy`, `Fibonacci.dfy` | `compile_time_gcd` with Lamé's bound, and the Fibonacci coroutine |
| `Sums.dfy`, `Wrappers.dfy` | sums over sequences (how threads and references are counted), optional values and exceptions |

How the models read the code:

- A protocol is a `State`, a set of labelled `Step`s with `Enabled` and `Apply`, and runs
  (`IsRun`, `Final`). "Every run" means every list of steps from a start state. The methods of
  the queue object are proved to be these steps; whole calls of the ring and of the shared
  pointers are proved to be sequences of them.
- Pointers and list iterators are node references or slot numbers. An exception is a
  result value. A slot of raw storage is `Raw`, `Live` or `MovedFrom`.
- An acquire load of the other side's index may return any value that index ever had, provided
  it is not older than what the same thread has read before ([intro.races] of the C++ standard).
- The history of a queue, the counts of constructions and destructions, and whether a block was
  destroyed or freed are ghost state.

Where the text of the code and its intent part:

- `lf_spsc_queue.hpp:45` and `:58` pass the slot's value where its address is meant, and
  `mpsc_blocking_queue.hpp:28` calls `std::forward` without its type; `arc_pointer.hpp:64` names a
  deleter that is called `DefaultDeleter`. None of these compiles when used; the evident intent
  is modelled.
- The comment at `lf_spsc_queue.hpp:31` describes the full test modulo the capacity; the code
  (line 38) works modulo the capacity plus one, and so does the model.
- `arc_pointer.hpp:111-112` clears the control block pointer of a moved-from pointer twice and its
  object pointer not at all. The model keeps this, and "`get()` never returns the address of a
  destroyed object" is therefore false of the code. `GetIsSafe` proves it of all runs in which no
  move assignment starts from a variable whose `get()` is not null; `MoveAssignCanDangle` proves
  that every other move assignment, in any reachable state, has a continuation that ends in such
  an address; `MoveAssignSafeIff` puts the two together. `StaleAfterMoveAssign` is a run on the
  objects.
- `pool_allocator.hpp:54-58` reads the free-list link from a slot after an object was constructed
  over it. The model has the link that is read back as an input of every construction, and both
  orders of reads: the one written, and the intended one that reads the link first. As written,
  the free list survives exactly when the link read back is the old one (`AllocateKeepsListIff`);
  `ZeroObjectLosesPool` is a pool of two slots that loses one. Reading the link first is enough
  for every constructor that returns, but not for one that throws, because the slot it wrote to
  stays the head of the list: `LinkFirstKeepsListIff` is the exact condition, and
  `ThrowLosesPool` a pool of two slots that loses one in either order.

## Model

| member | source | states |
|---|---|---|
| BlockingQueueProtocol.NoLostWakeup | include/cpp_playground/concurrency/mpsc_blocking_queue.hpp:26-55 | In every state of every run, spurious wake-ups included: while some thread of a role is parked, the elements (or free places) it waits for are no more than the threads that will look at them again or wake one that does; when the mutex is free, those are the threads woken but not relocked and those that changed the queue and have not notified yet |
| BlockingQueueProtocol.SafetyOfRuns | include/cpp_playground/concurrency/mpsc_blocking_queue.hpp:36-56 | At most one thread holds the mutex, the length never exceeds the capacity, and the popped values are a prefix of the pushed ones, the rest being the queue |
| BlockingQueueProtocol.PushedAreProgramValues | include/cpp_playground/concurrency/mpsc_blocking_queue.hpp:26-47 | Over every run each value was pushed, and is still to be pushed, together as often as the programs of all threads push it |
| BlockingQueueProtocol.PushedInProgramOrder | include/cpp_playground/concurrency/mpsc_blocking_queue.hpp:26-47 | The pushed values can be told apart by thread so that each thread's part, followed by what it still has to push, is the push sequence of its program |
| BlockingQueueProtocol.OneProducerOrder | include/cpp_playground/concurrency/mpsc_blocking_queue.hpp:26-47 | With one producer the pushed values followed by those left are its values in order |
| BlockingQueueProtocol.StepPushes | include/cpp_playground/concurrency/mpsc_blocking_queue.hpp:28-28 | The modify step of a push appends the value the call was given; no other step pushes anything |
| BlockingQueueProtocol.StuckOutcome | include/cpp_playground/concurrency/mpsc_blocking_queue.hpp:26-55 | For capacity at least 1 and threads that each only push or only pop, every run that cannot continue has popped min(pushes, pops) and pushed min(pushes, pops + capacity) values, whatever the schedule |
| BlockingQueueProtocol.StuckMeansFinished | include/cpp_playground/concurrency/mpsc_blocking_queue.hpp:26-55 | With as many pushes as pops, a state in which no thread can move is one in which every call of every thread has returned and the queue is empty |
| BlockingQueueProtocol.EverythingDelivered | include/cpp_playground/concurrency/mpsc_blocking_queue.hpp:26-55 | Such a run has popped each value exactly as often as the programs push it |
| BlockingQueueProtocol.AlwaysCanFinish | include/cpp_playground/concurrency/mpsc_blocking_queue.hpp:26-55 | No deadlock: from every reachable state some continuation lets every call return |
| BlockingQueueProtocol.StepsPerCall | include/cpp_playground/concurrency/mpsc_blocking_queue.hpp:26-55 | A run has at most 8 steps per call and 3 per thread, plus 4 per spurious wake-up, so runs with finitely many of those end |
| BlockingQueueProtocol.RunLength | include/cpp_playground/concurrency/mpsc_blocking_queue.hpp:26-55 | From any state, the steps of a run and the work still left are bounded by the work left at its start plus 4 per spurious wake-up |
| BlockingQueueProtocol.MixedThreadCanStick | include/cpp_playground/concurrency/mpsc_blocking_queue.hpp:48-50 | A concrete run showing that the single-role hypothesis is needed: a lone thread that pops before it pushes stays parked |
| BlockingQueueProtocol.StepKeepsWakeInv | include/cpp_playground/concurrency/mpsc_blocking_queue.hpp:26-55 | Each atomic step keeps the wake-up invariant for both condition variables |
| BlockingQueue.BoundedBlockingQueue.constructor | include/cpp_playground/concurrency/mpsc_blocking_queue.hpp:22-22 | A new queue is a start state of the protocol |
| BlockingQueue.BoundedBlockingQueue.Lock | include/cpp_playground/concurrency/mpsc_blocking_queue.hpp:38-38 | Taking the mutex is the protocol's acquire step |
| BlockingQueue.BoundedBlockingQueue.Wait | include/cpp_playground/concurrency/mpsc_blocking_queue.hpp:39-39 | Evaluating the wait predicate either proceeds or parks and releases in one step |
| BlockingQueue.BoundedBlockingQueue.PushBack | include/cpp_playground/concurrency/mpsc_blocking_queue.hpp:28-28 | The append finds room, adds the value the call was given at the end, and is the protocol's modify step |
| BlockingQueue.BoundedBlockingQueue.PopFront | include/cpp_playground/concurrency/mpsc_blocking_queue.hpp:51-52 | The front that is handed out exists, is the oldest element, and is removed |
| BlockingQueue.BoundedBlockingQueue.Release | include/cpp_playground/concurrency/mpsc_blocking_queue.hpp:41-41 | The mutex is released before anyone is notified |
| BlockingQueue.BoundedBlockingQueue.NotifyOne | include/cpp_playground/concurrency/mpsc_blocking_queue.hpp:45-54 | Some waiter of the other side is woken if there is one, and nobody otherwise |
| SpscProtocol.PopsArePrefixOfPushes | include/cpp_playground/concurrency/lf_spsc_queue.hpp:35-64 | Under every interleaving with stale loads, the popped values are a prefix of the accepted ones, at most capacity behind |
| SpscProtocol.AcceptedAreOffered | include/cpp_playground/concurrency/lf_spsc_queue.hpp:35-48 | Under every interleaving the accepted values are those of the try_push calls that reached their store, in order |
| SpscProtocol.SlotsAreSafe | include/cpp_playground/concurrency/lf_spsc_queue.hpp:45-60 | Construction hits raw storage, move-out hits the live object that is next in order, destruction hits the moved-from object, and the two sides never use one slot at a time |
| SpscProtocol.SlotTouchesAreOrdered | include/cpp_playground/concurrency/lf_spsc_queue.hpp:38-62 | No data race: when one side acts on a slot, every access the other side ever made to that slot was published by a store that this side's acquire loads have read |
| SpscProtocol.RefusalsAreJustified | include/cpp_playground/concurrency/lf_spsc_queue.hpp:39-56 | With a fresh load a push is refused exactly when the ring is full and a pop exactly when it is empty. With any coherent load, a refusal has learned nothing new: a refused push read the count of pops its side knew already and is one capacity ahead of it, a refused pop read the known count of pushes and has popped them all |
| SpscProtocol.StaleRefusal | include/cpp_playground/concurrency/lf_spsc_queue.hpp:39-44 | A concrete run in which no state is full and yet the next push, with a stale load, is refused |
| SpscProtocol.CallsAreWaitFree | include/cpp_playground/concurrency/lf_spsc_queue.hpp:35-64 | In every reachable state a call in progress has a next step of its own; whatever the other side does, a try_push in progress ends within three more of its own steps and a try_pop within four |
| SpscProtocol.FullTestIsExact | include/cpp_playground/concurrency/lf_spsc_queue.hpp:36-44 | For every coherent value the load may return, the modular comparison succeeds exactly when the counters behind the indices are one capacity apart |
| SpscProtocol.EmptyTestIsExact | include/cpp_playground/concurrency/lf_spsc_queue.hpp:50-57 | Likewise for the empty test and equal counters |
| SpscProtocol.StepKeepsInv | include/cpp_playground/concurrency/lf_spsc_queue.hpp:35-64 | Every atomic action keeps the indices equal to the counters modulo capacity+1 and each slot's state equal to what the window [R, W) and the action in flight say |
| SpscQueue.LFSPSCQueue.constructor | include/cpp_playground/concurrency/lf_spsc_queue.hpp:27-33 | capacity+1 raw slots and equal indices: the start state |
| SpscQueue.LFSPSCQueue.TryPush | include/cpp_playground/concurrency/lf_spsc_queue.hpp:35-48 | A completed call returns true exactly below capacity, appends the value then and changes nothing otherwise, and is a run of the protocol's producer steps |
| SpscQueue.LFSPSCQueue.TryPop | include/cpp_playground/concurrency/lf_spsc_queue.hpp:49-64 | A completed call returns the front of what is held and leaves the rest, or nothing exactly when empty, and is a run of the protocol's consumer steps |
| SpscQueue.SoloPush | include/cpp_playground/concurrency/lf_spsc_queue.hpp:35-48 | Four protocol steps (two when full) have exactly the effect of the sequential call |
| SpscQueue.SoloPop | include/cpp_playground/concurrency/lf_spsc_queue.hpp:49-64 | Five protocol steps (two when empty) have exactly the effect of the sequential call |
| ArcProtocol.CountsAreReferences | include/cpp_playground/arc_pointer.hpp:29-37 | Over any interleaving, each block's count is the number of pointers at it plus the references unfinished copy assignments carry; a freed block has none, and its object is destroyed at most once |
| ArcProtocol.NoDanglingPointer | include/cpp_playground/arc_pointer.hpp:78-122 | A variable that no call is writing and whose control block pointer is not null leads to a block that is not freed, and its get() is that block's own object, not destroyed |
| ArcAddresses.GetIsSafe | include/cpp_playground/arc_pointer.hpp:78-122 | In every run in which no move assignment starts from a variable with a non-null object pointer, get() of each variable that no call is writing is null or the undestroyed object of the variable's own block |
| ArcAddresses.MoveAssignCanDangle | include/cpp_playground/arc_pointer.hpp:107-122 | From every reachable state, a move assignment from a variable whose get() is not null has a continuation after which that variable's get() is the address of a destroyed object of a freed block |
| ArcAddresses.MoveAssignSafeIff | include/cpp_playground/arc_pointer.hpp:107-122 | After a clean run, a move assignment leaves get() sound in every clean continuation exactly when get() of its source is null |
| ArcProtocol.StepsAreSafe | include/cpp_playground/arc_pointer.hpp:29-37 | No step touches a freed block or takes a count below zero; destruction happens once, after the decrement that reached zero, and before the deletion |
| ArcProtocol.CallsEnd | include/cpp_playground/arc_pointer.hpp:78-120 | A call in progress always has a next step, and however the other threads interleave it ends after at most five of its own |
| ArcCalls.Quiesce | include/cpp_playground/arc_pointer.hpp:78-120 | From every state that satisfies the invariant, all calls in progress can be brought to their end, without changing a variable that none of them writes |
| ArcProtocol.NothingLeaks | include/cpp_playground/arc_pointer.hpp:30-37 | When all calls have returned, every block that no variable points at is freed and its object was destroyed exactly once |
| ArcProtocol.StepKeepsInv | include/cpp_playground/arc_pointer.hpp:78-120 | Each atomic action of construction, copy, move, assignment and destruction keeps counts, ownership and exclusive use of variables consistent |
| ArcCalls.SoloRelease | include/cpp_playground/arc_pointer.hpp:30-37 | The atomic actions of release_ref that nobody interrupts: decrement, and at zero the destruction, if there is an object, and the deletion |
| ArcCalls.SoloConstruct | include/cpp_playground/arc_pointer.hpp:65-75 | A construction makes a block with count one and a variable that holds the block and, if there is one, its object |
| ArcCalls.SoloMove | include/cpp_playground/arc_pointer.hpp:84-88 | A move construction hands block and object pointer to the new variable, leaves the source with neither, and changes no block and no other variable |
| ArcCalls.SoloCopy | include/cpp_playground/arc_pointer.hpp:78-81 | Both actions of an uninterrupted copy construction add one counted pointer and one reference |
| ArcCalls.SoloAssignCopy | include/cpp_playground/arc_pointer.hpp:91-104 | The actions of an uninterrupted copy assignment have no effect within one block; otherwise the new block gains a reference, the old one is released, and the target takes both pointers |
| ArcCalls.SoloAssignMove | include/cpp_playground/arc_pointer.hpp:107-114 | The actions of an uninterrupted move assignment release the target's block, hand over both pointers, and leave the source with its object pointer |
| ArcCalls.SoloDrop | include/cpp_playground/arc_pointer.hpp:116-120 | The actions of an uninterrupted destructor, all of one thread, release the block, if there is one, and end the variable |
| ArcPointer.ControlBlock.ReleaseRef | include/cpp_playground/arc_pointer.hpp:30-37 | One reference less; at zero the object, if any, is destroyed and the block freed |
| ArcPointer.ArcPointer.constructor | include/cpp_playground/arc_pointer.hpp:65-75 | A new pointer has a block of its own, with an object exactly when the address is not null |
| ArcPointer.ArcPointer.Copy | include/cpp_playground/arc_pointer.hpp:78-81 | The copy shares block and object pointer and adds one to the count |
| ArcPointer.ArcPointer.Move | include/cpp_playground/arc_pointer.hpp:84-88 | The source is left empty and no count changes |
| ArcPointer.ArcPointer.AssignCopy | include/cpp_playground/arc_pointer.hpp:91-104 | Self-assignment and assignment within one block change nothing; otherwise the new block gains and the old one releases a reference |
| ArcPointer.ArcPointer.AssignMove | include/cpp_playground/arc_pointer.hpp:107-114 | The old block is released and the source's pointers are taken; the source is empty afterwards exactly when its object pointer was null |
| ArcPointer.ArcPointer.Drop | include/cpp_playground/arc_pointer.hpp:116-120 | A non-null pointer releases its reference |
| ArcPointer.StaleAfterMoveAssign | include/cpp_playground/arc_pointer.hpp:107-122 | A concrete run: after a move assignment and the end of the target, the source still returns the address of the destroyed object |
| ArcRefinement.Construct | include/cpp_playground/arc_pointer.hpp:65-75 | Constructing an object takes a heap that represents a protocol state to one that represents the state after the construction |
| ArcRefinement.Copy | include/cpp_playground/arc_pointer.hpp:78-81 | Likewise for copy construction; the source's block is live by the protocol's invariant |
| ArcRefinement.Move | include/cpp_playground/arc_pointer.hpp:84-88 | Likewise for move construction |
| ArcRefinement.AssignCopy | include/cpp_playground/arc_pointer.hpp:91-104 | Likewise for copy assignment |
| ArcRefinement.AssignMove | include/cpp_playground/arc_pointer.hpp:107-114 | Likewise for move assignment |
| ArcRefinement.Drop | include/cpp_playground/arc_pointer.hpp:116-120 | Likewise for the destructor |
| ArcRefinement.LegalIsEnabled | include/cpp_playground/arc_pointer.hpp:78-120 | A call may begin in the protocol exactly when its operands exist and the control block pointers it dereferences are not null |
| ArcRefinement.Execute | include/cpp_playground/arc_pointer.hpp:65-120 | Any list of calls on real objects is a run of the protocol; afterwards no variable leads to a freed block or a destroyed object, and a block no variable leads to is freed, its object destroyed once |
| ArcRefinement.ServedIsRun | include/cpp_playground/arc_pointer.hpp:65-120 | The calls of such a list, one after the other, are one protocol run to the state the heap represents |
| LruInclusion.Inclusion | include/cpp_playground/containers/lru_cache.hpp:22-68 | After the same operations, the recency list of the smaller of two caches is a subsequence of the larger one's, and each hit in it is a hit with the same value in the larger |
| LruInclusion.OpKeepsIncluded | include/cpp_playground/containers/lru_cache.hpp:22-68 | Each operation keeps the inclusion, together with equality of both lists until the smaller cache is full |
| LruHistory.CacheIsNewestTouches | include/cpp_playground/containers/lru_cache.hpp:24-68 | The recency list is the first `capacity` distinct keys of the reversed history of inserts and hits |
| LruHistory.CachedValueIsLastPut | include/cpp_playground/containers/lru_cache.hpp:32-36 | Every cached value is the one last inserted under its key |
| LruHistory.HitIffFewKeysSince | include/cpp_playground/containers/lru_cache.hpp:39-65 | A key hits exactly when it was touched before and fewer than `capacity` distinct keys were touched since |
| LruHistory.GetAnswers | include/cpp_playground/containers/lru_cache.hpp:22-68 | Each get of any sequence of calls answers the value last inserted under its key if fewer than `capacity` other keys were touched since the key was, and nothing otherwise |
| LruSpec.CacheShape | include/cpp_playground/containers/lru_cache.hpp:60-65 | Keys in the list are distinct and the list never exceeds the capacity |
| LruCache.LRUCache.constructor | include/cpp_playground/containers/lru_cache.hpp:17-18 | An empty list and an empty index |
| LruCache.LRUCache.Insert | include/cpp_playground/containers/lru_cache.hpp:22-37 | The list becomes what the specification says, the returned element is the front one, the index points to the very nodes of the list, and surviving index entries keep their nodes |
| LruCache.LRUCache.Get | include/cpp_playground/containers/lru_cache.hpp:39-47 | The result is the value stored under the key, a hit is promoted, a miss changes nothing |
| LruCache.RunCalls | include/cpp_playground/containers/lru_cache.hpp:17-68 | Any sequence of calls on a new cache object gives the specification's answers for the calls before each, and ends with its list and a consistent index |
| LruCache.LRUCache.EmplaceFront | include/cpp_playground/containers/lru_cache.hpp:26-27 | A new node at the front and an index entry that points to it |
| LruCache.LRUCache.Overwrite | include/cpp_playground/containers/lru_cache.hpp:33-34 | Overwriting a value through the iterator changes no other entry |
| LruCache.LRUCache.PromoteElement | include/cpp_playground/containers/lru_cache.hpp:66-68 | Splicing moves the entry to the front and keeps every index entry valid |
| LruCache.LRUCache.EvictLast | include/cpp_playground/containers/lru_cache.hpp:62-63 | One eviction removes the last node and its index entry and leaves the others alone |
| LruCache.LRUCache.ShrinkToFit | include/cpp_playground/containers/lru_cache.hpp:60-65 | The eviction loop cuts the list to the capacity and removes exactly the evicted keys from the index |
| LruCache.IndexSize | include/cpp_playground/containers/lru_cache.hpp:56-57 | The index has exactly one entry per list node |
| MemoryPoolSpec.PoolRuns | include/cpp_playground/memory/pool_allocator.hpp:47-72 | For both orders of reads, after any run of allocations and deallocations in any order whose constructions leave what the order needs (reading the link first: nothing from a constructor that returns, the old link from one that throws), the links visit exactly the slots without an object and end at null; allocation fails exactly when all slots are live, changes nothing then, and otherwise hands out a slot that was not live and leaves every object alone |
| MemoryPoolSpec.IntactIffKept | include/cpp_playground/memory/pool_allocator.hpp:47-72 | For both orders of reads, the free list is intact all along a run of legal calls exactly when each of its constructions left what the order needs |
| MemoryPoolSpec.OrdersAgree | include/cpp_playground/memory/pool_allocator.hpp:53-58 | On runs that keep every link, the order written and the intended order reach the same pool |
| MemoryPoolSpec.AllocateKeepsListIff | include/cpp_playground/memory/pool_allocator.hpp:53-58 | As written, an allocation, or a constructor that throws, keeps the free list exactly when the link read from the slot afterwards is the old link |
| MemoryPoolSpec.LinkFirstKeepsListIff | include/cpp_playground/memory/pool_allocator.hpp:53-58 | With the link read first, the free list is kept exactly when the constructor returns or the slot still holds the old link |
| MemoryPoolSpec.ZeroObjectLosesPool | include/cpp_playground/memory/pool_allocator.hpp:53-58 | A concrete pool of two slots in which an object with null bytes makes the next allocation fail although a slot is unused |
| MemoryPoolSpec.ThrowLosesPool | include/cpp_playground/memory/pool_allocator.hpp:53-58 | A concrete pool of two slots in which a constructor that writes null bytes and throws makes a later allocation fail although a slot is unused, in either order of reads |
| MemoryPoolSpec.DeallocateKeepsPath | include/cpp_playground/memory/pool_allocator.hpp:63-72 | The freed slot is put at the head of the list; a null pointer changes nothing |
| MemoryPoolSpec.OpKeepsObjects | include/cpp_playground/memory/pool_allocator.hpp:47-72 | No call disturbs an object: only the slot handed out becomes live, with the constructed value, and only the one given back stops being live |
| MemoryPoolSpec.AllocateDeallocate | include/cpp_playground/memory/pool_allocator.hpp:47-72 | Giving an object back right after making it restores the pool exactly; with the link read first, whatever the constructor wrote |
| MemoryPool.MemoryPool.constructor | include/cpp_playground/memory/pool_allocator.hpp:30-37 | The loop links all slots in order, the last to null |
| MemoryPool.MemoryPool.AllocateObject | include/cpp_playground/memory/pool_allocator.hpp:47-61 | bad_alloc exactly when every slot is live; afterwards the pool is usable exactly when the link survived the constructor |
| MemoryPool.MemoryPool.DeallocateObject | include/cpp_playground/memory/pool_allocator.hpp:63-72 | The pool stays usable and equals the specification's |
| FixedCapacityQueue.FixedCapacityQueue.Create | include/cpp_playground/containers/fixed_capacity_queue.hpp:66-72 | Construction throws exactly for capacity zero |
| FixedCapacityQueue.FixedCapacityQueue.TailIndex | include/cpp_playground/containers/fixed_capacity_queue.hpp:30-36 | The write index is the slot just after the window |
| FixedCapacityQueue.FixedCapacityQueue.ConstructElement | include/cpp_playground/containers/fixed_capacity_queue.hpp:47-55 | push and emplace return true exactly below capacity, append the value then and change nothing otherwise, and construct only in raw storage |
| FixedCapacityQueue.FixedCapacityQueue.DestructElement | include/cpp_playground/containers/fixed_capacity_queue.hpp:37-63 | The oldest element is destroyed and the head advances without modulo |
| FixedCapacityQueue.FixedCapacityQueue.Pop | include/cpp_playground/containers/fixed_capacity_queue.hpp:107-115 | pop returns the front of the contents and leaves the rest, or nothing exactly when empty, and destroys the moved-from shell |
| FixedCapacityQueue.FixedCapacityQueue.Clear | include/cpp_playground/containers/fixed_capacity_queue.hpp:82-86 | The loop terminates having destroyed each held element exactly once, oldest first |
| FixedCapacityQueue.FixedCapacityQueue.LiveWindow | include/cpp_playground/containers/fixed_capacity_queue.hpp:30-36 | Live slots are exactly the wrapped window that starts at the head |
| RingAgreement.AnswerOnBoth | include/cpp_playground/containers/fixed_capacity_queue.hpp:47-115 | On every list of requests the head+size ring and the read/write ring of equal capacity give the same answers, and these are the answers of a bounded first-in first-out queue: a value is stored exactly below capacity, and what is handed out is the oldest stored value not handed out yet |
| BoundedFifo.TakenThenHeld | include/cpp_playground/containers/fixed_capacity_queue.hpp:47-115 | The values handed out, followed by those still held, are the values stored, in order |
| BoundedFifo.AnswersAreFifo | include/cpp_playground/containers/fixed_capacity_queue.hpp:47-115 | The answers of the bounded sequence meet the description by requests and answers alone |
| VectorSpec.RunKeepsBalance | include/cpp_playground/containers/fixed_capacity_vector.hpp:98-490 | Over any run on any number of vectors of any capacities, made and destroyed at any time, constructions minus destructions equals the sum of the sizes, and no size exceeds its capacity |
| VectorSpec.NothingLeaks | include/cpp_playground/containers/fixed_capacity_vector.hpp:98-490 | When every vector of a run has been destroyed, as many objects were destroyed as constructed |
| VectorSpec.EffectBalances | include/cpp_playground/containers/fixed_capacity_vector.hpp:98-490 | No operation loses or invents an object; a thrown exception leaves everything as it was, except that resize leaves the vector full with its old prefix |
| VectorSpec.EffectOnElements | include/cpp_playground/containers/fixed_capacity_vector.hpp:98-490 | Copy and move take the whole sequence over and throw exactly when it exceeds the capacity; push_back appends one element and throws exactly on a full vector; pop_back removes the last and throws exactly on an empty one; resize keeps a prefix or appends the fill value |
| VectorSpec.PopUndoesPush | include/cpp_playground/containers/fixed_capacity_vector.hpp:299-490 | pop_back after push_back, and shrinking back after growing, restore the elements |
| VectorSpec.StepTouchesOnly | include/cpp_playground/containers/fixed_capacity_vector.hpp:98-490 | An operation changes no vector but its target and the source of a move |
| FixedCapacityVector.FixedCapacityVector.CopyOf | include/cpp_playground/containers/fixed_capacity_vector.hpp:98-130 | Copy construction copies the sequence, or throws exactly when it exceeds the capacity |
| FixedCapacityVector.FixedCapacityVector.MoveOf | include/cpp_playground/containers/fixed_capacity_vector.hpp:137-173 | Move construction transfers the sequence, empties the source, and destroys every shell |
| FixedCapacityVector.FixedCapacityVector.CopyElements | include/cpp_playground/containers/fixed_capacity_vector.hpp:243-246 | The copy loop constructs in raw slots only and leaves the source alone |
| FixedCapacityVector.FixedCapacityVector.MoveElements | include/cpp_playground/containers/fixed_capacity_vector.hpp:285-290 | The move loop constructs in raw slots only, destroys each moved-from shell once, and empties the source |
| FixedCapacityVector.FixedCapacityVector.AssignCopy | include/cpp_playground/containers/fixed_capacity_vector.hpp:204-248 | Copy assignment replaces the contents, refuses before destroying anything, and ignores self-assignment |
| FixedCapacityVector.FixedCapacityVector.AssignMove | include/cpp_playground/containers/fixed_capacity_vector.hpp:255-292 | Move assignment transfers the whole sequence and empties the source |
| FixedCapacityVector.FixedCapacityVector.ResizeTo | include/cpp_playground/containers/fixed_capacity_vector.hpp:299-309 | Shrinking keeps the first elements, growing keeps all and appends the fill value, and growing past the capacity throws with the vector full |
| FixedCapacityVector.FixedCapacityVector.Append | include/cpp_playground/containers/fixed_capacity_vector.hpp:438-477 | push_back and emplace_back append the value, or throw exactly on a full vector and change nothing |
| FixedCapacityVector.FixedCapacityVector.RemoveLast | include/cpp_playground/containers/fixed_capacity_vector.hpp:483-490 | pop_back destroys the last object and keeps the others in place, or throws exactly on an empty vector |
| FixedCapacityVector.FixedCapacityVector.ClearAll | include/cpp_playground/containers/fixed_capacity_vector.hpp:423-431 | Every object is destroyed once and the vector is empty |
| StridedMatrixView.ChainDenotes | src/matrix_view.cpp:130-189 | After any chain of subview, transpose and stride, each in-range cell is the matrix cell given by the composed coordinate maps and lies inside the rows*cols buffer |
| StridedMatrixView.CellsDoNotAlias | src/matrix_view.cpp:157-189 | Distinct cells of such a view are distinct places |
| StridedMatrixView.OpDenotes | src/matrix_view.cpp:157-178 | One operation: an in-range cell comes from an in-range cell at the same address; transpose and stride reach every such cell |
| StridedMatrixView.SubviewDenotes | src/matrix_view.cpp:157-166 | subview succeeds exactly when the block fits, has the asked shape, and its cell (i, j) is the cell (r + i, c + j) |
| StridedMatrixView.StrideDenotes | src/matrix_view.cpp:171-178 | stride succeeds exactly for positive steps; row i exists exactly when row i * a did, likewise columns, and cell (i, j) is the cell (i * a, j * b) |
| StridedMatrixView.TransposeDenotes | src/matrix_view.cpp:167-170 | transpose swaps the shape, and its cell (i, j) is the cell (j, i) |
| StridedMatrixView.StrideOfStride | src/matrix_view.cpp:171-178 | Striding twice equals striding once by the products, in shape, strides and exceptions, for all steps including zero |
| StridedMatrixView.StrideThenTranspose | src/matrix_view.cpp:167-178 | stride(a,b) then transpose equals transpose then stride(b,a); transposing twice is the identity |
| StridedMatrixView.SubviewOfSubview | src/matrix_view.cpp:157-166 | Nested subviews equal one subview with summed starts |
| Arithmetic.CeilDivOfCeilDiv | src/matrix_view.cpp:175-176 | Rounding up twice is rounding up once by the product |
| MatrixViewSpec.CellsOfChain | src/matrix_view.cpp:35-115 | After any sequence of subview, crop and reshape, stride >= cols, every cell is inside the buffer, and distinct cells are distinct places |
| MatrixViewSpec.ChainDenotes | src/matrix_view.cpp:35-115 | After any chain of subview, crop and reshape, each in-range cell is the matrix cell given by the composed coordinate maps, at row * cols + col inside the buffer |
| MatrixViewSpec.SubviewDenotes | src/matrix_view.cpp:70-78 | subview succeeds exactly when the block fits, has the asked shape and the same stride, and its cell (i, j) is the cell (r + i, c + j) |
| MatrixViewSpec.CropDenotes | src/matrix_view.cpp:79-85 | crop succeeds exactly when it does not grow the view, and the cells that remain keep their places |
| MatrixViewSpec.ReshapeDenotes | src/matrix_view.cpp:86-97 | reshape throws exactly on a view that is not contiguous or has another number of cells; its cell (i, j) is the cell with the same row-by-row number |
| MatrixViewSpec.ReshapeKeepsCells | src/matrix_view.cpp:86-97 | reshape keeps the k-th cell in row-major order at the same address for every k, and reshaping back restores the view |
| MatrixViewSpec.SubviewOfSubview | src/matrix_view.cpp:70-78 | Nested subviews equal one subview with summed starts |
| MatrixView.MatrixView.Crop | src/matrix_view.cpp:79-85 | Shrinks the shape in place and keeps the stride, or throws exactly when asked to grow and changes nothing |
| MatrixView.MatrixView.Reshape | src/matrix_view.cpp:86-97 | Replaces the shape in place, or throws (not contiguous first, then wrong number of elements) and changes nothing |
| Gcd.GcdIsGreatest | include/cpp_playground/compile_time_gcd.hpp:8-11 | The result divides both arguments, and the common divisors are exactly the divisors of the result |
| Gcd.GcdIsUnique | include/cpp_playground/compile_time_gcd.hpp:8-11 | These properties single the result out, and it is zero only for two zeros |
| Gcd.Lame | include/cpp_playground/compile_time_gcd.hpp:8-11 | n divisions starting with the larger argument need arguments of at least Fib(n+2) and Fib(n+1) |
| Gcd.FibonacciSteps | include/cpp_playground/compile_time_gcd.hpp:8-11 | Neighbouring Fibonacci numbers take exactly as many divisions as the bound allows |
| Gcd.AtMost92Steps | include/cpp_playground/compile_time_gcd.hpp:8-11 | Any two 64-bit arguments take at most 92 divisions |
| Gcd.BoundIsTight | include/cpp_playground/compile_time_gcd.hpp:8-11 | Two 64-bit arguments take exactly 92 |
| Gcd.SignedGcd | include/cpp_playground/compile_time_gcd.hpp:14-33 | The signed form compiles exactly when neither argument is the minimum, and is then the gcd of the absolute values |
| FibonacciGenerator.FibonacciLimit | src/coroutines_fibonacci.cpp:9-20 | Terminates with the largest representable Fibonacci number, without overflow |
| FibonacciGenerator.FibonacciNumbers | src/coroutines_fibonacci.cpp:23-37 | Yields exactly Fib(0), ..., Fib(k), all Fibonacci numbers up to the maximum, and stops; exactly one addition wraps, and its result is not yielded |
| FibonacciGenerator.NothingSkipped | src/coroutines_fibonacci.cpp:23-37 | A Fibonacci number fits exactly when its index is at most the last yielded one |
| FibonacciGenerator.WrapAddIsModular | src/coroutines_fibonacci.cpp:35-35 | The wrapping addition of the model is addition modulo max + 1 |
| FibonacciGenerator.FibonacciNumbers64 | src/coroutines_fibonacci.cpp:39-43 | For 64 bits the program lists 94 numbers, the last being 12200160415121876738 |

## Left out

- ArcProtocol.CountsAreReferences: the 64-bit counter is unbounded here; it would wrap only with 2^64 live references.
- ArcPointer.ArcPointer.Copy: copying from a pointer without control block is excluded, here and in the protocol; so are move assignment to one, and copy assignment to or from one unless both have none. The code then dereferences null (`arc_pointer.hpp:80`, `:99-100`, `:108`).
- ArcPointer.ArcPointer.AssignMove: move assignment of a variable to itself is excluded; the code would release its block and then clear its control block pointer.
- SpscQueue.LFSPSCQueue.constructor: destruction of a non-empty ring is not modelled, because the class has no destructor that drains it.
- FibonacciGenerator.FibonacciNumbers: unsigned types with a maximum of at least 2 only; for signed types the last addition overflows, which is undefined, and bool does not wrap.
- LruCache.LRUCache.Insert: capacity 0 is excluded, because the code then reads the front of an emptied list.
- StridedMatrixView.ChainDenotes: index and bounds arithmetic is unbounded; wrap-around of size_t sums and products is not modelled.
- FixedCapacityVector.FixedCapacityVector.CopyOf: element constructors do not throw, and byte layout is not modelled; the initializer-list constructor is the same loop and is omitted.
- MemoryPoolSpec.PoolRuns: calls with a pointer that is not a live object of the pool are undefined in the original and not part of a run.
- RingAgreement.AnswerOnBoth: capacity 0 is excluded, because FixedCapacityQueue cannot be made with it.
- ArcRefinement.Execute: calls on the ArcPointer objects run one after the other; their interleavings are those of the protocol.
- Exceptions of element copies inside queue operations, allocation failure, and time-outs of waits.
- Accessors, iterators, stream output, and the loops of `main` in `src/matrix_view.cpp`.
- char_string.hpp: its heap paths use fields that do not exist, so the code does not settle what it does.
- optional.hpp, owning_pointer.hpp, function.hpp, deleter.hpp, concepts.hpp, crtp.cpp: single-flag ownership or type plumbing, which would add only easy members.
- pthreads_mutex.hpp, signal_handling, timers, thread_racer.cpp, allocation_sizes.cpp, interference_size.cpp: operating system calls and printing.
