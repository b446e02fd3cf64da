# Verified models of Cinos

Dafny models of five components of the repository, with proofs of what each is for. Every component is a state machine or a protocol whose code is a fast form of something simple: a queue, a set of free buffers, a set of free blocks, a map from names, a byte sequence, one map shared by several nodes. The project relates each fast form to its simple one over all runs.

- **Lock-free ring queue** (`LockfreeQueue`, `QueueObject`). Producers and consumers share three positions modulo the ring size. One step is one shared read or compare-and-swap; unbounded tickets are kept as history. First-in first-out delivery is proved for every interleaving in which no thread falls a lap behind, for one producer and one consumer without that condition, and the exact condition under which a step keeps the queue intact is given. The loops of the code, with other threads at work between any two of their accesses, are shown to perform those steps.
- **Shared-memory messages** (`Ipc`, `IpcShm`). A free list threaded through an index array hands out chains of buffers. Taking and returning a chain are locked; marking and every copy are steps of their own. Free list and outstanding chains partition the buffers in every run, and a receiver gets the bytes that were sent whatever happens in between.
- **Power-of-two slab allocator** (`Bits`, `Slab`, `Mempool`). A bump pointer and one free list per size class, the lists stored in the freed memory itself. Blocks tile the span handed out, and writes into live blocks never reach a list.
- **userfs** (`Bitmap`, `MaxHeap`, `BlockAlloc`, `DentryHash`, `NameHash`, `HashNodes`, `Directory`, `RootDir`, `FileBlocks`, `FileBytes`, `InodeBuffer`, `ByteFile`, `OpenFile`, `Volume`, `Mount`). Blocks are allocated from the emptiest group, found at the root of a heap, by the first clear bit of its bitmap. The directory is a ring of dentries whose delete swaps the first one into the hole, indexed by a chained hash table. Reads and writes go through a table of block addresses that is itself a part of the inode's buffer, in front of the file's first bytes. All files take their blocks from one allocator. Formatting, flushing and mounting close the circle.
- **SDCS cache index** (`Sdcs`, `SdcsCluster`). Every node maps a key to data or to the node that has it. One step is one remote call; operations on different keys interleave freely, and calls may fail, applied or not.

`Arith` and `Common` hold what the others share. Code that updates objects in place is modelled by classes whose methods are proved against functions on values; the properties of whole runs are lemmas about those functions. Quotients and remainders by a variable are written `Quot` and `Rem`, which `Arith.QuotRem` shows to be division and remainder.

## What does not hold

Where the code does not do what it is for, the model keeps the code, a lemma gives an input or a run, and another gives the exact condition.

- The queue's create leaves two fields unset (`LockfreeQueue.CreateExact`), and its reserve and read CAS compare positions, not tickets, so a lapped thread can lose values (`LappedReserveLosesValues`, `StepKeepsInvIff`). Full and empty are judged by two positions read one after the other: an enqueue can be refused while the queue is empty, and a dequeue can find nothing while a value is held (`RefusedWhileEmpty`, `NothingWhileHeld`, `RefusalRightIff`, `NothingRightIff`).
- An empty message reserves no buffer but names one, and wherever a buffer is free it can hand a receiver the wrong bytes (`Ipc.EmptySendCorrupts`, `SendSafeIff`); with none free its count is written over a byte of the buffers (`StrayMarkSparesIff`). A receiver can be told it got more bytes than were copied (`CopiesAllIff`).
- Freed blocks count as remaining, so the bump pointer can leave the region (`Slab.BumpLeavesRegion`, `BumpInsideIff`); the class test admits one class too many, so that a request can read the list heads past their end (`Slab.SixteenPastTheEnd`, `PastTheEndIff`, `CanReadPastIff`).
- The bitmap scan has no bound and relies on a clear bit behind the map (`Bitmap.SentinelNeeded`); clearing never clears (`ClearBreaks`).
- Block numbers pass the end of the disk unless the number of data blocks is a multiple of the group size (`BlockAlloc.PastTheDiskIff`), and the superblock count starts one too low (`SuperblockWraps`). A group whose size is no multiple of 8 has fewer bits than blocks, one of 65536 blocks or more counts fewer blocks than it has bits, and allocation fails early (`FormatHonestIff`, `NinthOfTwelve`, `LeftoverStuck`, `CountedShort`).
- Names are compared over the length of the query, so a name finds longer ones (`DentryHash.PrefixConfuses`, `GetIsLookupIff`), odd buckets stay empty (`OddBucketsUnused`), and the object count starts with what the allocation held (`CountRightIff`).
- A create that fails after taking a dentry displaces the first one without telling the index (`Directory.CreateExistingBreaks`, `CreateKeepsIff`); nothing else is lost, and a mount puts it right (`FailedCreateKeeps`, `FailedCreateMounts`).
- Beyond the first shard of an open block reads and writes go to the first one (`FileBytes.LandsIff`), the shard a buffer does hold is passed over (`InodeBuffer.WriteFindsIff`), and clipping overruns the buffer (`CopyFitsIff`). The table has room for 122 addresses, and nothing stops an access to block 122 or beyond, which stores its address over the file's own bytes (`InodeBuffer.WriteSparesFirstIff`, `ReadSparesFirstIff`, `ByteFile.Write122Breaks`).
- A write that fails after some of its calls leaves the nodes in disagreement, unless it is a post by the node that had the key or a delete of an absent key (`Sdcs.FailTearsIff`); a delete that does so leaves a key no later delete can remove (`HalfDeleteStuck`).

## Model

| member | source | states |
|---|---|---|
| `LockfreeQueue.CreateExact` | lockfree_que/lockfree_queue.c:6-27 | the queue create returns satisfies the invariant if and only if the two fields it leaves unset, `lfb_max_read_pos` and `count`, happen to be 0 |
| `LockfreeQueue.ExecKeepsShape` | lockfree_que/lockfree_queue.c:29-107 | positions stay inside the ring in every interleaving, lapped or not |
| `LockfreeQueue.ReserveExact` | lockfree_que/lockfree_queue.c:38-46 | a reserve CAS that succeeds keeps the invariant if and only if the ring is not full at that moment |
| `LockfreeQueue.StoreKeeps` | lockfree_que/lockfree_queue.c:49 | the store into a reserved slot disturbs no published value and no other reservation |
| `LockfreeQueue.CommitIff` | lockfree_que/lockfree_queue.c:57-63 | the commit CAS finds its position if and only if its ticket is the next one to publish: equal positions mean equal tickets |
| `LockfreeQueue.CommitKeeps` | lockfree_que/lockfree_queue.c:57-63 | a commit attempt, successful or not, keeps the invariant |
| `LockfreeQueue.CommitInOrder` | lockfree_que/lockfree_queue.c:57-63 | slots are published exactly in reservation order, and the thread that can publish next always exists |
| `LockfreeQueue.TakeExact` | lockfree_que/lockfree_queue.c:82-99 | a read CAS that succeeds keeps the invariant if and only if the queue is not empty and the value read before is still the one at the read position |
| `LockfreeQueue.CountKeeps` | lockfree_que/lockfree_queue.c:64 | the counter updates keep `count`, corrected by pending adds and subs, equal to committed minus consumed |
| `LockfreeQueue.StepKeepsInvIff` | lockfree_que/lockfree_queue.c:29-107 | every event of every thread keeps the invariant if and only if it is safe, a condition on the state before it |
| `LockfreeQueue.NotLappedIsSafe` | lockfree_que/lockfree_queue.c:38-103 | an event whose thread has not fallen a full lap behind is safe |
| `LockfreeQueue.RunKeepsInvIff` | lockfree_que/lockfree_queue.c:29-107 | a whole run keeps the invariant throughout if and only if all its events are safe |
| `LockfreeQueue.NotLappedRunIsSafe` | lockfree_que/lockfree_queue.c:38-103 | every run in which no thread falls a lap behind keeps the invariant |
| `LockfreeQueue.Fifo` | lockfree_que/lockfree_queue.c:38-103 | for any number of producers and consumers not lapped: the values dequeued are a prefix of the values enqueued in reserve order, every published slot holds its value, read <= max-read <= write < read + N in tickets, and `count` is exact up to pending updates |
| `LockfreeQueue.AtRest` | lockfree_que/lockfree_queue.c:29-107 | with all threads idle, the enqueued values are the dequeued ones followed by what the ring holds, and `count` is their number |
| `LockfreeQueue.AnswersExact` | lockfree_que/lockfree_queue.c:41-45 | with the position it read still current, an enqueue is refused exactly when N - 1 values are in the ring and a dequeue finds nothing exactly when none is published |
| `LockfreeQueue.RefusalRightIff` | lockfree_que/lockfree_queue.c:39-45 | whatever happened since, an enqueue that is refused finds the ring full if and only if the write position is still the one it read |
| `LockfreeQueue.NothingRightIff` | lockfree_que/lockfree_queue.c:82-92 | a dequeue that finds nothing is right if and only if the read position is still the one it read |
| `LockfreeQueue.RefusedWhileEmpty` | lockfree_que/lockfree_queue.c:39-45 | in a new ring of any size, a run after which an enqueue is refused although the queue is empty and intact |
| `LockfreeQueue.NothingWhileHeld` | lockfree_que/lockfree_queue.c:82-92 | in a new ring of two slots, a run after which a dequeue finds nothing although a published value is held |
| `LockfreeQueue.SoleProducerNotLapped` | lockfree_que/lockfree_queue.c:38-46 | a sole producer never reserves on a stale position |
| `LockfreeQueue.SoleConsumerNotLapped` | lockfree_que/lockfree_queue.c:79-103 | a sole consumer never takes on a stale position |
| `LockfreeQueue.SoleProducerRefusal` | lockfree_que/lockfree_queue.c:39-45 | a lone producer is refused exactly when the ring is full, after every run of any number of consumers |
| `LockfreeQueue.SoleConsumerNothing` | lockfree_que/lockfree_queue.c:82-92 | a lone consumer finds nothing exactly when nothing is published, after every run of any number of producers |
| `LockfreeQueue.SpscFifo` | lockfree_que/lockfree_queue.c:29-107 | with one producer and one consumer, first-in first-out delivery holds in every interleaving without further condition |
| `LockfreeQueue.SoloEnq` | lockfree_que/lockfree_queue.c:29-66 | an enqueue nobody interrupts appends its value, publishes it and counts it |
| `LockfreeQueue.SoloDeq` | lockfree_que/lockfree_queue.c:68-107 | a dequeue nobody interrupts takes the value at the read position |
| `LockfreeQueue.LappedReserveLosesValues` | lockfree_que/lockfree_queue.c:38-46 | a run from a fresh queue of two slots: a producer lapped between its reads and its CAS succeeds on a full ring, and two published values become unreachable |
| `QueueObject.Queue.constructor` | lockfree_que/lockfree_queue.c:6-27 | the shared words are those of `LockfreeQueue.Create`, which satisfies the invariant if and only if the two unset fields are 0 |
| `QueueObject.Queue.ReserveSlot` | lockfree_que/lockfree_queue.c:38-46 | the reserve loop, whatever other threads do between its accesses and however often it retries, makes the steps of the machine; it ends with a slot whose ticket is its own, or refused with no ticket taken, having seen in its last access a read position next to the write position it had read |
| `QueueObject.Queue.Publish` | lockfree_que/lockfree_queue.c:57-63 | the publishing loop makes the commit steps of the machine until one succeeds |
| `QueueObject.Queue.Enque` | lockfree_que/lockfree_queue.c:29-66 | among other threads the code performs exactly the run of `LockfreeQueue` in which their events are woven between its accesses; it says yes if and only if this thread took a ticket in the call, and then exactly one, with the value; it says no only with no ticket taken, its last access having seen the read position next to the write position it had read, rightly if and only if that is still current |
| `QueueObject.Queue.Deque` | lockfree_que/lockfree_queue.c:68-107 | the same of a dequeue: it returns a value if and only if this thread took one in the call, and then exactly one and that one; it says there is none only with nothing taken, its last access having seen the published position equal to the read position it had read |
| `QueueObject.AloneEnque` | lockfree_que/lockfree_queue.c:29-66 | with nobody else at work and fewer than N - 1 values held, the six accesses of an enqueue put the value last |
| `QueueObject.AloneDeque` | lockfree_que/lockfree_queue.c:68-107 | with nobody else at work and a value held, the five accesses of a dequeue take the value that came first |
| `QueueObject.AloneEnqueAnswer` | lockfree_que/lockfree_queue.c:29-66 | with nobody else at work the answer of the code is right: yes if and only if fewer than N - 1 values are held |
| `QueueObject.AloneDequeAnswer` | lockfree_que/lockfree_queue.c:68-107 | with nobody else at work it returns the value that came first, or says there is none if and only if none is held |
| `Ipc.PackRoundTrip` | ipc_test/dep.h:1-14 | unpacking a packed tag gives back its fields, and a packed tag never looks like the error value -1 |
| `Ipc.TagRoundTrip` | ipc_test/dep.h:11-14 | length and first buffer survive the tag exactly when they fit in 8 bits |
| `Ipc.BufsIsCeiling` | ipc_test/ipc_test.h:178 | the number of buffers of a message is its size divided by the buffer size, rounded up |
| `Ipc.InitInv` | ipc_test/ipc_test.h:144-165 | the initialised header threads all buffers into one free list ended by 255 |
| `Ipc.WalkLinked` | ipc_test/ipc_test.h:123-133 | following k links from the head of a chain reaches its k-th element, or what the chain ends in |
| `Ipc.SendKeepsIff` | ipc_test/ipc_test.h:172-209 | starting a send keeps the invariant if and only if the message is not empty |
| `Ipc.MarkKeeps` | ipc_test/ipc_test.h:190-191 | noting the buffer count of a message keeps the invariant |
| `Ipc.CopyKeeps` | ipc_test/ipc_test.h:196-202 | copying one chunk into its buffer keeps the invariant: no other message changes |
| `Ipc.RecvKeeps` | ipc_test/ipc_test.h:211-224 | starting a receive keeps the invariant |
| `Ipc.TakeKeeps` | ipc_test/ipc_test.h:232-238 | taking one chunk out keeps the invariant |
| `Ipc.ReturnKeeps` | ipc_test/ipc_test.h:240-243 | giving a chain back relinks it in front of the free list and keeps the invariant |
| `Ipc.RunKeepsInv` | ipc_test/ipc_test.h:172-245 | every interleaving of sends and receives of non-empty messages keeps the invariant |
| `Ipc.RoundTrip` | ipc_test/ipc_test.h:172-245 | after every such run, whoever has received a message got the bytes that were sent; the length returned is the size rounded up to 8, and as many bytes are copied out, or as many as its buffers hold |
| `Ipc.CopiesAllIff` | ipc_test/ipc_test.h:225-245 | the length returned is the number of bytes copied out, for every size, if and only if the buffer size is a multiple of 8 or at least the longest message |
| `Ipc.Partition` | ipc_test/ipc_test.h:111-133 | every buffer is in the free list or in exactly one outstanding chain |
| `Ipc.OthersLeaveChain` | ipc_test/ipc_test.h:172-245 | no step of another party changes an outstanding message, the links inside its chain, or those of its bytes that are stored, while it is being sent, posted or received |
| `Ipc.AllReturned` | ipc_test/ipc_test.h:240-243 | when no message is outstanding the free list has all buffers again |
| `Ipc.RefusedIff` | ipc_test/ipc_test.h:182-185 | a send is refused exactly when the message is too long or needs more buffers than are free, and then changes nothing but the list of calls |
| `Ipc.EmptySendCorrupts` | ipc_test/ipc_test.h:172-245 | from every state of the invariant with a buffer free, an empty send can be followed by sends of two bytes after which the receiver of the first byte is handed the second |
| `Ipc.SendSafeIff` | ipc_test/ipc_test.h:172-245 | from every state of the invariant, with a buffer free if the message is empty, every receiver in every continuation gets the bytes sent to it if and only if the send is not empty |
| `Ipc.EmptyUnderNil` | ipc_test/ipc_test.h:180-191 | with no buffer free an empty message is accepted under index 255 and nothing else changes |
| `Ipc.StrayMarkSparesIff` | ipc_test/ipc_test.h:190-191 | writing the count of such a message, a byte of the buffers, leaves an outstanding message whole if and only if none of its stored bytes is there or the one that is there is 0 |
| `IpcShm.Shm.constructor` | ipc_test/ipc_test.h:144-165 | the loop over the index array establishes `Ipc.Init`, which satisfies the invariant by `Ipc.InitInv` |
| `IpcShm.Shm.SeqOut` | ipc_test/ipc_test.h:123-133 | the walk takes the first k buffers off the free list and returns the old head |
| `IpcShm.Shm.SeqIn` | ipc_test/ipc_test.h:111-119 | the chain is linked in front of the list, unless it is empty |
| `IpcShm.Shm.CopyAll` | ipc_test/ipc_test.h:196-202 | the sending loop is that many copy steps of `Ipc.StepTask` and ends with the message posted and the invariant kept |
| `IpcShm.Shm.Send` | ipc_test/ipc_test.h:172-209 | a send of any message without interruption refines the steps of `Ipc` and returns the packed tag of the posted message, or the refusal, which leaves list, counts and bytes as they were; else the free list is what reserving left, only bytes and counts differing; the invariant holds afterwards if and only if the message was not empty |
| `IpcShm.Shm.TakeAll` | ipc_test/ipc_test.h:232-238 | the receiving loop is that many take steps of `Ipc.StepTask`; what it has copied out begins with the message sent, and it remembers the last buffer |
| `IpcShm.Shm.Recv` | ipc_test/ipc_test.h:211-245 | a receive without interruption refines the steps of `Ipc`, returns the bytes sent and their length rounded up to 8, copies that many bytes or as many as the buffers hold, puts the message's chain in front of the free list, leaves all buffers' bytes, and keeps the invariant |
| `IpcShm.Ceiling` | ipc_test/ipc_test.h:178 | the rounded-up division is the number of chunks |
| `Bits.Ulog2Exact` | include/bits.h:13-33 | the halving steps compute the position of the highest set bit of every non-zero 32-bit word |
| `Bits.Ulog2lExact` | include/bits.h:35-42 | the same for 64-bit words |
| `Bits.SizeBitsLeast` | mempool/mempool.c:15-24 | the slot is the least exponent, at least 3, whose power of two is at least the size |
| `Slab.InitInv` | mempool/mempool.c:85-120 | a new pool has no tiles and all its bytes remaining |
| `Slab.BumpKeeps` | mempool/mempool.c:56-60 | taking a block off the bump pointer keeps the tiling |
| `Slab.PopKeeps` | mempool/mempool.c:49-54 | taking a block off a free list keeps the tiling and the lists threaded through freed memory |
| `Slab.FreeKeeps` | mempool/mempool.c:63-83 | returning a live block under its own size class keeps both |
| `Slab.WriteKeeps` | mempool/mempool.c:63-83 | writes into live blocks never disturb a free list |
| `Slab.RunKeepsInv` | mempool/mempool.c:26-83 | every run of allocations, frees and writes keeps the tiling, the lists and the accounts |
| `Slab.TilesApart` | mempool/mempool.c:26-83 | any two blocks, live or free, are disjoint |
| `Slab.TileInSpan` | mempool/mempool.c:26-60 | every block lies between start and bump pointer and is 8-aligned relative to the start |
| `Slab.SpanIsSum` | mempool/mempool.c:26-60 | live and freed blocks fill the span from start to bump pointer exactly |
| `Slab.Accounts` | mempool/mempool.c:43-80 | remaining size plus live bytes is the total |
| `Slab.AllocGives` | mempool/mempool.c:26-61 | an allocation succeeds exactly when the size is not 0, fits what remains and has a class; it makes one block live that is large enough, aligned and apart from every live block |
| `Slab.BumpInsideIff` | mempool/mempool.c:57-58 | a block off the bump pointer stays inside the region if and only if its size and all freed bytes together fit what remains |
| `Slab.OneClassRun` | mempool/mempool.c:39-60 | while all requests share one class the bump pointer never passes the end of the region |
| `Slab.BumpLeavesRegion` | mempool/mempool.c:39-60 | five allowed operations on a pool of 16 bytes after which a block begins at the end of the region |
| `Slab.PastTheEndIff` | mempool/mempool.c:36-49 | a request reads the list heads past their end if and only if it needs a block of twice the largest class and that much remains |
| `Slab.CanReadPastIff` | mempool/mempool.c:36-49 | in any state some request does so if and only if a block of twice the largest class remains |
| `Slab.SixteenPastTheEnd` | mempool/mempool.c:36-49 | a new pool of 16 bytes and one class reads list head 1 of 1 at a request of 16 |
| `Mempool.Ctrl.constructor` | mempool/mempool.c:85-120 | the control block starts as `Slab.Init` |
| `Mempool.Ctrl.Allocate` | mempool/mempool.c:26-61 | the in-place code refines `Slab.Alloc`, described by `Slab.AllocGives`, and keeps the invariant |
| `Mempool.Ctrl.Release` | mempool/mempool.c:63-83 | the in-place code refines `Slab.Free` and keeps the invariant |
| `Bitmap.InitExact` | userfs/bitmap.c:18-24 | a new map is all clear with an exact cache, and has its sentinel exactly when the byte behind it starts with a clear bit |
| `Bitmap.FirstFreeExact` | userfs/bitmap.c:86-105 | with a clear sentinel every call returns the least clear bit and sets only that one, or -1 exactly when all are set, and keeps the cache exact, also across the wrap at the last bit |
| `Bitmap.SentinelNeeded` | userfs/bitmap.c:98-99 | a call that takes a bit keeps the cache exact if and only if another bit of the map is clear or the bit behind the map is |
| `Bitmap.ClearBreaks` | userfs/bitmap.c:61-73 | clearing never clears a bit; it refuses, and keeps the cache exact, if and only if all eight bits of the byte are clear already; else the count falls one short of the bits set |
| `Bitmap.ClearHandsOutTwice` | userfs/bitmap.c:61-73 | after a clear below the cached position the next allocation returns a bit that is still in use |
| `Bitmap.SetThroughByte` | userfs/bitmap.c:55 | or-ing a shifted one into a byte sets exactly that bit of the map |
| `Bitmap.Bitmap.constructor` | userfs/bitmap.c:18-24 | the bytes of the map are zeroed and the bytes behind it kept |
| `Bitmap.Bitmap.Set` | userfs/bitmap.c:75-84 | one bit is set, whatever it was, and the counter moves |
| `Bitmap.Bitmap.ScanFrom` | userfs/bitmap.c:98-100 | the loop stops at the first clear bit |
| `Bitmap.Bitmap.TakeFirstFree` | userfs/bitmap.c:86-105 | the code on bytes refines `Bitmap.GetFirstFree`, described by `Bitmap.FirstFreeExact` |
| `MaxHeap.RootIsMax` | userfs/userfs_heap.c:46-51 | in an ordered heap no entry is above the root |
| `MaxHeap.SwapUp` | userfs/userfs_heap.c:53-63 | one swap with the parent moves the only disorder up |
| `MaxHeap.SwapDown` | userfs/userfs_heap.c:65-83 | one swap with the largest child moves the only disorder down |
| `MaxHeap.Heap.constructor` | userfs/userfs_heap.c:9-26 | a new heap is empty |
| `MaxHeap.Heap.HeapUp` | userfs/userfs_heap.c:53-63 | sifting up restores the order of a heap disordered at one place, keeps its entries and ends |
| `MaxHeap.Heap.Largest` | userfs/userfs_heap.c:68-77 | the child compared against is the largest, or neither child is larger |
| `MaxHeap.Heap.HeapDown` | userfs/userfs_heap.c:65-83 | sifting down restores the order, keeps the entries and ends |
| `MaxHeap.Heap.Insert` | userfs/userfs_heap.c:85-110 | an insert adds exactly its entry, or is refused exactly when the heap is full, and keeps the order |
| `MaxHeap.Heap.Top` | userfs/userfs_heap.c:112-120 | the top is an entry of maximal free count, or nothing exactly when the heap is empty |
| `MaxHeap.Heap.Extract` | userfs/userfs_heap.c:122-137 | an extract removes exactly the top, of maximal free count, and keeps the order |
| `BlockAlloc.GroupGives` | userfs/userfs_file_ctrl.c:117-122 | a group with free blocks always has a clear bit: the bitmap-full exit is unreachable below a heap top with free blocks |
| `BlockAlloc.AllocStep` | userfs/userfs_file_ctrl.c:91-142 | an allocation fails exactly when every group is full and then changes nothing; else it gives a new block number below the capacity and keeps heap count, descriptor count and clear bits equal in every group |
| `BlockAlloc.BalanceStep` | userfs/userfs_file_ctrl.c:103-131 | an allocation keeps the fullest and emptiest group within one block of each other |
| `BlockAlloc.FormatInvIff` | userfs/userfs_init.c:233-253 | a fresh format is balanced, and satisfies the invariant if and only if the group size is a multiple of 8 and fits the 16-bit count of the descriptor |
| `BlockAlloc.FormatHonestIff` | userfs/userfs_init.c:233-253 | in every run from a format allocations fail exactly when every group has all bits set and nothing counted free, if and only if the group size is a multiple of 8 and fits in 16 bits |
| `BlockAlloc.LeftoverStuck` | userfs/userfs_file_ctrl.c:117-122 | in every run from a format with one group, allocation fails from the time its bits are used up, with the remainder of its size by 8 counted free |
| `BlockAlloc.CountedShort` | userfs/userfs_init.c:247-249 | in every run from a format with one group of 65536 blocks or more, allocation fails once the size cut to 16 bits is used up |
| `BlockAlloc.NinthOfTwelve` | userfs/userfs_init.c:247-249 | in every run from a format with one group of twelve, the ninth allocation is the first to fail, with four blocks counted free |
| `BlockAlloc.RunKeepsInv` | userfs/userfs_file_ctrl.c:91-142 | every run of allocations keeps the invariant |
| `BlockAlloc.RunStaysBalanced` | userfs/userfs_file_ctrl.c:103-131 | every run from equal groups stays balanced |
| `BlockAlloc.SuperblockCounts` | userfs/userfs_file_ctrl.c:126 | over every run the superblock count falls by one per block given, wrapping as a 32-bit number |
| `BlockAlloc.NeverTwice` | userfs/userfs_file_ctrl.c:133-136 | no block number is given twice in a run and each is below groups times blocks per group |
| `BlockAlloc.AllHanded` | userfs/userfs_file_ctrl.c:91-142 | when no group has a free block, every number below the capacity has been given |
| `BlockAlloc.PastTheDiskIff` | userfs/userfs_init.c:266 | a full file system has given numbers past the data blocks of the disk if and only if their count is not a multiple of the group size |
| `BlockAlloc.SuperblockWraps` | userfs/userfs_init.c:203-206 | the superblock count starts one too low, so giving every data block wraps it below zero |
| `BlockAlloc.Allocator.Lightest` | userfs/userfs_file_ctrl.c:103-114 | the heap top names a group with the most free blocks and its count, or nothing exactly when there are no groups |
| `BlockAlloc.Allocator.Take` | userfs/userfs_file_ctrl.c:123-136 | the updates of heap, descriptor and superblock together are one step of the modelled state |
| `BlockAlloc.Allocator.GetNewBlock` | userfs/userfs_file_ctrl.c:91-142 | the in-place code performs one allocation as described by `BlockAlloc.AllocStep`, fails without groups, and keeps the invariant |
| `DentryHash.OddBucketsUnused` | userfs/include/userfs_dentry_hash.h:71-88 | the final shift makes every hash even: no name lands in an odd bucket |
| `NameHash.AndBits` | userfs/include/userfs_dentry_hash.h:71-88 | a bit of the conjunction is set if and only if it is in both numbers |
| `NameHash.XorBits` | userfs/include/userfs_dentry_hash.h:71-88 | a bit of the exclusive or is set if and only if the two numbers differ there |
| `NameHash.HashStepIs` | userfs/include/userfs_dentry_hash.h:77-84 | one turn of the hash is 32-bit arithmetic: the sum is cut to 32 bits, and 0x7fffffff is subtracted if and only if its top bit is set |
| `NameHash.BucketIsRemainder` | userfs/include/userfs_dentry_hash.h:71-88 | with a power of two of buckets, the bucket is the remainder of the hash |
| `DentryHash.TagRoundTrip` | userfs/include/userfs_dentry_hash.h:26-28 | type and address come back from a tagged address exactly when the address leaves the top bit clear |
| `DentryHash.GetIsLookupIff` | userfs/userfs_dentry_hash.c:195-219 | a lookup returns what is stored under exactly its name if and only if no longer name with that prefix stands before it in the chain |
| `DentryHash.InsertActs` | userfs/userfs_dentry_hash.c:87-134 | an insert of an unshadowed name is refused exactly when the name is stored, else adds that one entry and keeps all counters |
| `DentryHash.ChangeActs` | userfs/userfs_dentry_hash.c:136-193 | the two updates are refused exactly when the name is not stored, else change that entry only |
| `DentryHash.RemoveActs` | userfs/userfs_dentry_hash.c:221-263 | a remove takes out exactly the entry of its name and keeps all counters |
| `DentryHash.PrefixFreeUnshadowed` | userfs/userfs_dentry_hash.c:79 | among prefix-free names none is shadowed |
| `DentryHash.PrefixConfuses` | userfs/userfs_dentry_hash.c:73-85 | with "ab" stored in a table of one bucket, a lookup of "a" returns the entry of "ab" and "a" cannot be inserted |
| `DentryHash.RefinesMap` | userfs/userfs_dentry_hash.c:73-263 | over every run of operations on prefix-free names the chained table answers as a finite map, bucket counts are the chain lengths, and the object count is their sum more than it was created with |
| `DentryHash.CountRightIff` | userfs/userfs_dentry_hash.c:25-38 | after every such run of a new table the object count is the number of entries if and only if the allocation held 0 there |
| `HashNodes.PushSpells` | userfs/userfs_dentry_hash.c:123-124 | linking a new node in front of a bucket makes the links spell the chain with the new entry first, and no other chain changes |
| `HashNodes.OverwriteSpells` | userfs/userfs_dentry_hash.c:160 | changing the object of a node changes that entry of its chain alone |
| `HashNodes.CutSpells` | userfs/userfs_dentry_hash.c:245-249 | unlinking a node, through the bucket or the node before it, makes the links spell the chain without that entry, and no other chain changes |
| `HashNodes.LinkHash.constructor` | userfs/userfs_dentry_hash.c:25-54 | a new table is empty with its bucket counts at 0, the object count keeping what it held |
| `HashNodes.LinkHash.BucketOf` | userfs/include/userfs_dentry_hash.h:71-88 | the loop over the characters computes `DentryHash.Bucket` |
| `HashNodes.LinkHash.Search` | userfs/userfs_dentry_hash.c:73-85 | the walk along the links ends at the node of the first matching entry, with the node before it at hand |
| `HashNodes.LinkHash.Lookup` | userfs/userfs_dentry_hash.c:195-219 | the code on linked nodes refines `DentryHash.Get`, described by `DentryHash.GetIsLookupIff` |
| `HashNodes.LinkHash.Add` | userfs/userfs_dentry_hash.c:87-134 | the code on linked nodes refines `DentryHash.Insert`, described by `DentryHash.InsertActs` |
| `HashNodes.LinkHash.Modify` | userfs/userfs_dentry_hash.c:136-193 | the code on linked nodes refines `DentryHash.Change`, described by `DentryHash.ChangeActs` |
| `HashNodes.LinkHash.Delete` | userfs/userfs_dentry_hash.c:221-263 | the code on linked nodes refines `DentryHash.Remove`, described by `DentryHash.RemoveActs` |
| `Directory.ArcPush` | userfs/userfs_file_ctrl.c:226-238 | taking a dentry extends the used arc of the ring by one position that was not in it |
| `Directory.ArcPop` | userfs/userfs_file_ctrl.c:240-258 | freeing a used dentry drops the first position from the arc and puts the first dentry in the freed place |
| `Directory.FreeRefusedIff` | userfs/userfs_file_ctrl.c:240-258 | freeing is refused exactly for a position not in use, and only where the used arc wraps around |
| `Directory.CreatedKeeps` | userfs/userfs_file_ops.c:36-69 | a create of a new name succeeds and keeps ring and index in agreement |
| `Directory.OpenKeeps` | userfs/userfs_file_ops.c:72-138 | an open keeps the agreement and succeeds exactly when the name is indexed |
| `Directory.CloseKeeps` | userfs/userfs_file_ops.c:140-191 | a close keeps the agreement |
| `Directory.DeleteActs` | userfs/userfs_file_ops.c:246-265 | a delete removes its name from the index and moves the first dentry to its new place there, and nothing else |
| `Directory.DeleteKeeps` | userfs/userfs_file_ops.c:246-265 | a delete of an indexed name succeeds and keeps the agreement |
| `Directory.DeleteAbsent` | userfs/userfs_file_ops.c:239-252 | a delete of any other name is refused and changes nothing |
| `Directory.CreateKeepsIff` | userfs/userfs_file_ops.c:36-61 | a create keeps the agreement if and only if it stops before taking a dentry, the directory is empty, or an inode is to be had and the name is new |
| `Directory.CreateExistingBreaks` | userfs/userfs_file_ops.c:54-61 | creating a name that exists always breaks the agreement |
| `Directory.FailedCreateKeeps` | userfs/userfs_file_ops.c:36-61 | a create that fails leaves index and buffers, and the dentries in use are the same as before; only the place of the first one may differ |
| `Directory.FailedCreateMounts` | userfs/userfs_file_ctrl.c:240-258 | with all files closed, the index mounted from the ring a failed create leaves stands for the same map of files |
| `Directory.StepRefines` | userfs/userfs_file_ops.c:14-265 | create, open, close and delete answer and act as on a map from names to block and open count |
| `Directory.RunRefines` | userfs/userfs_file_ops.c:14-265 | every run keeps the index holding exactly the names of the used arc, each with the position of its dentry, and answers as that map |
| `Directory.MountRebuilds` | userfs/userfs_init.c:487-505 | once all files are closed, mounting succeeds and the index rebuilt from the ring equals, as a map, the one maintained step by step |
| `Directory.FormatRunMount` | userfs/userfs_init.c:476-506 | from a fresh format: every run answers as the map of files, and mounting what it leaves gives the same files |
| `RootDir.Root.constructor` | userfs/userfs_init.c:316-331 | a fresh table and an empty index, the start of `Directory.FormatRunMount` |
| `RootDir.Root.TakeDentry` | userfs/userfs_file_ctrl.c:226-238 | the in-place code refines `Directory.AllocDentry`, described by `Directory.ArcPush` |
| `RootDir.Root.DropDentry` | userfs/userfs_file_ctrl.c:240-258 | the swap in place refines `Directory.FreeDentry`, described by `Directory.ArcPop` |
| `RootDir.Root.CreateFile` | userfs/userfs_file_ops.c:14-70 | the in-place code refines `Directory.Create`, every failure exit included, described by `Directory.CreatedKeeps` and `Directory.FailedCreateKeeps` |
| `RootDir.Root.OpenFile` | userfs/userfs_file_ops.c:72-138 | the in-place code refines `Directory.Open` |
| `RootDir.Root.CloseFile` | userfs/userfs_file_ops.c:140-191 | the in-place code refines `Directory.Close` |
| `RootDir.Root.DeleteFile` | userfs/userfs_file_ops.c:232-265 | the in-place code refines `Directory.Delete` |
| `RootDir.Root.MountIndex` | userfs/userfs_init.c:476-506 | the loop over the ring builds the index of `Directory.MountRebuilds`, or gives up exactly when an insertion is refused |
| `FileBlocks.PutBlock` | userfs/userfs_file_ops.c:502-513 | a write that gets a block changes the bytes it covers in it and no other byte; a new block keeps the unset bytes of its buffer elsewhere |
| `FileBlocks.TakeReturns` | userfs/userfs_file_ops.c:564-607 | a read returns the bytes of its block if it ends within the file, else nothing, and changes none |
| `FileBlocks.StepBytes` | userfs/userfs_file_ops.c:458-608 | an access changes the bytes it writes, named by block and offset, and no other byte of any block |
| `FileBlocks.StepSize` | userfs/userfs_file_ops.c:514-516 | an access leaves the size at the larger of the old one and the end of a write that succeeded |
| `FileBytes.PlanExact` | userfs/userfs_file_ops.c:473-487 | in the first shard of a block, the offset in the shard is the offset in the block, and clipping ends at the end of the shard |
| `FileBytes.Covered` | userfs/userfs_file_ops.c:476-480 | the translation of offsets is injective: an access covers exactly the places its offsets translate to |
| `FileBytes.WriteByteIff` | userfs/userfs_file_ops.c:468-470 | in a block that is open or can be had, writing one byte returns 1 if and only if its offset plus 1024 plus 1 is below 2^32, else nothing changes |
| `FileBytes.ReadByteIff` | userfs/userfs_file_ops.c:539-541 | reading one byte within the size returns it if and only if the same holds |
| `FileBytes.CopyFitsIff` | userfs/userfs_file_ops.c:482-487 | for every offset and size, the copy stays within both buffers if and only if nothing needs clipping, or the clipping test does not wrap and the offset in the block does not pass the shard size |
| `FileBytes.ReadReturns` | userfs/userfs_file_ops.c:530-608 | a read returns the bytes at its offsets, or nothing when it ends past the size |
| `FileBytes.LandsIff` | userfs/userfs_file_ops.c:369-379 | a write into an open block lands on the bytes it names, for every data, if and only if its offset lies in the first shard of the block |
| `FileBytes.StrayWrite` | userfs/userfs_file_ops.c:369-379 | elsewhere the bytes show up in the first shard |
| `InodeBuffer.EntryStoreSparesIff` | userfs/include/inode.h:64-78 | storing a buffer address in entry v of the table leaves every byte of the file alone if and only if v is below 122 |
| `InodeBuffer.PutRefines` | userfs/userfs_file_ops.c:320-397 | a write on the bytes of the buffers, with size, times and table among the bytes of the inode buffer, is `FileBlocks.Put` on the blocks they stand for, and keeps them well formed |
| `InodeBuffer.TakeRefines` | userfs/userfs_file_ops.c:399-456 | a read on the bytes of the buffers returns what `FileBlocks.Take` returns, and keeps them well formed |
| `InodeBuffer.WriteSparesFirstIff` | userfs/userfs_file_ops.c:496-516 | a write that opens another block leaves the bytes of the file in the inode block alone if and only if the block number is below 122 |
| `InodeBuffer.ReadSparesFirstIff` | userfs/userfs_file_ops.c:558-600 | the same of a read that opens a block |
| `InodeBuffer.WriteFindsIff` | userfs/userfs_file_ops.c:312-379 | the search for a shard of an open block stops at the block's buffer, whatever shard that holds, if and only if the shard asked for is the first or comes after the one held; so the shard held, unless it is the first, is passed over |
| `InodeBuffer.ReadFindsIff` | userfs/userfs_file_ops.c:425-438 | the same of a read |
| `InodeBuffer.WriteStamps` | userfs/userfs_file_ops.c:505-520 | a write that copies sets the modification time to now and leaves the access time; one that fails changes nothing |
| `InodeBuffer.ReadStamps` | userfs/userfs_file_ops.c:570-604 | a read that copies from a block sets the access time to now and leaves the modification time; one that fails or reads a hole changes nothing |
| `InodeBuffer.Block122Overwrites` | userfs/userfs_file_ops.c:496-516 | a write that opens block 122 leaves the address of its buffer in the first eight bytes of the file |
| `InodeBuffer.CreatedGood` | userfs/userfs_file_ctrl.c:184-209 | a new inode has size 0, its own block open and no other block |
| `InodeBuffer.CreatedFields` | userfs/userfs_file_ctrl.c:197-202 | its three times are the time of creation and its reference count is 1 |
| `ByteFile.DoRefines` | userfs/userfs_file_ops.c:458-608 | a read or write by offset on the bytes of the buffers is that access to the file they stand for |
| `ByteFile.WriteByteIff` | userfs/userfs_file_ops.c:468-470 | on the bytes of the buffers: one byte is written, where its block is open or can be had, if and only if its offset plus 1024 plus 1 is below 2^32 |
| `ByteFile.ReadByteIff` | userfs/userfs_file_ops.c:539-541 | one byte within the size is read if and only if the same holds |
| `ByteFile.LastWriteWins` | userfs/userfs_file_ops.c:458-608 | after any run of reads and writes within 122 blocks, each byte a read returns is the one last written at its offset, or the old one, or zero in a block never allocated |
| `ByteFile.SizeIsLastEnd` | userfs/userfs_file_ops.c:514-516 | after any such run the size field holds the furthest end of any write |
| `ByteFile.ReadLengthAfterRun` | userfs/userfs_file_ops.c:563-568 | a read after any such run returns all it may, or nothing when it ends past the furthest end written |
| `ByteFile.HeaderKept` | userfs/userfs_file_ops.c:466-473 | after any such run the header is as it was but for the two times, the size and the table entries of the blocks accessed |
| `ByteFile.Write122Breaks` | userfs/userfs_file_ops.c:458-528 | in a new file, whatever the geometry, eight zeros written at offset 0 are an address after one byte is written in block 122 |
| `OpenFile.CopyIn` | userfs/userfs_file_ops.c:508 | the copy loop replaces exactly the bytes it covers |
| `OpenFile.LoadWord` | userfs/include/inode.h:64-78 | a field of the inode is read from its bytes, lowest first |
| `OpenFile.StoreWord` | userfs/include/inode.h:64-78 | storing a field changes exactly its bytes, lowest first |
| `OpenFile.Inode.constructor` | userfs/userfs_file_ctrl.c:184-209 | a new file in its buffer is `InodeBuffer.Created`: times and reference count set, its inode block open and no block else |
| `OpenFile.Inode.Load` | userfs/userfs_file_ctrl.c:144-168 | a buffer is filled with the shard read from disk |
| `OpenFile.Inode.Translate` | userfs/userfs_file_ops.c:473-487 | machine division, remainders and clipping are those of `FileBytes.PlanOf` |
| `OpenFile.Inode.PutBytes` | userfs/userfs_file_ops.c:320-397 | the three ways to a buffer, new, read from disk or open, with the stores into the inode buffer, refine `InodeBuffer.Put` |
| `OpenFile.Inode.WriteBytes` | userfs/userfs_file_ops.c:458-528 | the code on arrays of bytes refines `ByteFile.Write`, no two blocks sharing an array; how far it reaches is `ByteFile.WriteByteIff` |
| `OpenFile.Inode.TakeBytes` | userfs/userfs_file_ops.c:399-456 | the code on arrays of bytes refines `InodeBuffer.Take` |
| `OpenFile.Inode.ReadBytes` | userfs/userfs_file_ops.c:530-608 | the code on arrays of bytes refines `ByteFile.Read`; how far it reaches is `ByteFile.ReadByteIff` |
| `Volume.NewFileKeeps` | userfs/userfs_file_ctrl.c:184-209 | creating a file takes its inode block from the allocator, and every block in a table is still given out and stands in one place of one file |
| `Volume.AccessKeeps` | userfs/userfs_file_ops.c:333-349 | an access asks the allocator exactly when it writes to a block that is not there, and keeps the same |
| `Volume.BlocksNeverShared` | userfs/userfs_file_ops.c:333-349 | from a fresh format, over every run of creates, reads and writes of any number of files, no block is ever held by two files or twice by one |
| `Mount.WhereApart` | userfs/userfs_block_rw.c:7-50 | below 4 GiB the bytes of two blocks never overlap, and each block ends where the next begins |
| `Mount.FlushReads` | userfs/userfs_block_rw.c:7-50 | every block of a flushed list is read back from its bytes on the disk |
| `Mount.FlushKeeps` | userfs/userfs_block_rw.c:7-27 | flushing leaves what is read of every other block |
| `Mount.FlushSpares` | userfs/userfs_block_rw.c:7-27 | flushing changes no byte of the disk outside the blocks of the list |
| `Mount.WalkUnique` | userfs/userfs_init.c:380-398 | there is at most one list of blocks the mount walk can read |
| `Mount.FlushThenWalk` | userfs/userfs_init.c:380-398 | flushing a chain and walking it from its first block ends and returns its blocks in order |
| `Mount.Grabbed` | userfs/userfs_init.c:98-121 | metadata blocks come from the bitmap all different, all free before, and as many as asked for or as there are |
| `Mount.TableLinked` | userfs/userfs_init.c:276-304 | the formatted table is a chain of different blocks ended by the first metadata block, and each block's `prev` names the block whose `next` names it |
| `Mount.TableGroups` | userfs/userfs_init.c:263-267 | a table with the computed number of blocks has a descriptor for every group |
| `Mount.FormatThenMount` | userfs/userfs_init.c:256-314 | format, flush, mount: the walk ends, returns the formatted blocks in order, and descriptors by number and heap are those of a fresh file system, which satisfies the allocator's invariant if and only if the group size is a multiple of 8 and fits 16 bits |
| `Mount.Append` | userfs/userfs_init.c:296-303 | a new block is linked behind the last one, both ways |
| `Mount.FormatTable` | userfs/userfs_init.c:256-304 | the loop, linking each new block behind the last, builds the table of `Mount.FormatThenMount` |
| `Mount.FlushList` | userfs/userfs_block_rw.c:7-27 | the loop refines `Mount.Flush` byte by byte, described by `Mount.FlushReads`, `Mount.FlushKeeps` and `Mount.FlushSpares` |
| `Mount.ReadChain` | userfs/userfs_init.c:380-398 | the mount loop ends and returns the chain |
| `Mount.BuildIndex` | userfs/userfs_init.c:445-466 | the heap gets one entry per group, whose count is that of the descriptor which the number maps back to by quotient and remainder |
| `Sdcs.InitInv` | sdcs/sdcs.go:156 | empty caches satisfy the invariant |
| `Sdcs.BeginKeeps` | sdcs/sdcs.go:26-82 | an operation may begin whenever no write on its key, or for a write no operation at all, is in flight |
| `Sdcs.CallAnswers` | sdcs/sdcs.go:26-82 | an operation that ends on a key the nodes agreed on when it began answers as one map of the latest values would |
| `Sdcs.CallKeeps` | sdcs/sdcs_grpc_service.go:43-76 | every remote call keeps the invariant, for its own key and for all others |
| `Sdcs.FailKeeps` | sdcs/sdcs.go:59-62 | a failed call keeps the invariant: its key is torn exactly when the nodes then disagree on it |
| `Sdcs.RunKeepsInv` | sdcs/sdcs.go:26-82 | every run with the operations on one key serialised keeps the invariant |
| `Sdcs.QuietKeyAgreed` | sdcs/sdcs.go:49-82 | in every run a key with no write in flight is torn exactly when the nodes agree on nothing about it, and else is absent everywhere, or one node has the latest data and all others point to it |
| `Sdcs.AnswersExact` | sdcs/sdcs.go:26-82 | in every run, failed calls included, a get from any node returns the latest value and a delete reports whether there was one, on every key the nodes agreed on when the operation began |
| `Sdcs.AllAnswersExact` | sdcs/sdcs.go:26-82 | where no call fails this holds of every answer |
| `Sdcs.AnswersSoon` | sdcs/sdcs.go:26-82 | in every run a get answers within two calls and a write within as many as there are nodes: an operation that has not ended has made fewer, and can make its next call |
| `Sdcs.FailTearsIff` | sdcs/sdcs.go:49-82 | after a failed write on an agreed key, with k of n calls applied, the nodes still agree if and only if k is 0 or n, or it was a post by the node that had the key, or a delete of an absent key; they hold the old value, or the new one where the call that stores it was applied |
| `Sdcs.PostMends` | sdcs/sdcs.go:49-65 | a completed post brings a torn key back to agreement, on its value |
| `Sdcs.HalfDeleteStuck` | sdcs/sdcs.go:68-82 | a delete of a present key that fails after some calls but not all leaves the key torn, and every later delete stops at the first node, answers false and changes nothing |
| `SdcsCluster.Node.GetData` | sdcs/sdcs_grpc_service.go:60-66 | the entry and whether there is one |
| `SdcsCluster.Node.DeleteIndex` | sdcs/sdcs_grpc_service.go:68-76 | the entry goes, and the answer says whether there was one |
| `SdcsCluster.Cluster.HandlePost` | sdcs/sdcs.go:49-65 | the posting node ends as the owner, every other node points to it, and no other key changes |
| `SdcsCluster.Cluster.HandleDelete` | sdcs/sdcs.go:68-82 | true exactly when every node had the key; the nodes before the first one without it have lost it |
| `SdcsCluster.Cluster.HandleGet` | sdcs/sdcs.go:26-46 | the data found here or at the node pointed to; where the nodes agree, what the key holds |
| `SdcsCluster.FetchAgreed` | sdcs/sdcs.go:26-46 | where the nodes agree on a key a get at any of them finds its value |

## Left out

- Weak memory ordering and failing memory allocation: shared accesses are sequentially consistent and allocation succeeds.
- Null pointer arguments, logging, locks as such: no logic of their own; times other than those a create, a read and a write set in the inode.
- LockfreeQueue.Fifo: says nothing about progress; a producer waits for those before it to publish.
- Ipc.RoundTrip: covers non-empty messages up to 2040 bytes and 1 to 252 buffers, the limits of the tag and the index array; short messages sent inside the tag are not part of the model.
- IpcShm.Shm.Send: the two error codes of a refused send are one value.
- Ipc.SendSafeIff: for an empty message with no buffer free the damage is stated of the store alone, by StrayMarkSparesIff; a receive under index 255 reads its count there, but the links it would follow past the index array are not modelled.
- Slab.AllocGives: addresses and sizes are unbounded numbers below 2^64 and memory is a map of words, so wrap-around of addresses, misaligned frees and the shift by 64 that sizes above 2^63 would need are not modelled; a class equal to the number of classes, which the program reads past its array, is excluded here and described by PastTheEndIff.
- Slab.FreeKeeps: a free must name a live block with a size of its class, as the program assumes.
- BlockAlloc.AllocStep: heap entries are values, not shared pointers; which of several equally empty groups is taken is left open.
- DentryHash.RefinesMap: names in use are prefix-free; the list that destroy walks is not modelled.
- HashNodes.LinkHash.Add: a new node's address is one never used before.
- BlockAlloc.Allocator.GetNewBlock: without groups the program reads the missing heap top for its log before it fails; only the failure is modelled.
- QueueObject.Queue.Enque: whether the publishing loop ends depends on the other threads, so a call may still be running when the given schedule ends.
- Directory.StepRefines: a create is one for which CreateKeepsIff holds; buffers are numbered and fresh, their recycling list never grows in the program; freeing blocks and inodes has an empty body there.
- Directory.DeleteActs: what delete does after the index and the ring, reading the inode and freeing buffers, is not modelled.
- ByteFile.LastWriteWins: accesses lie in the first shard of their block, within the 122 blocks of the table and below 4 GiB, block sizes divide 2^32 and are multiples of the shard size; lists of several shard buffers are not modelled. A byte never written in a block allocated during the run is whatever its new buffer held, as in the program.
- Volume.BlocksNeverShared: block numbers given out are never returned, since freeing has an empty body in the program.
- InodeBuffer.PutRefines: stands on the same accesses, as do InodeBuffer.TakeRefines and ByteFile.DoRefines.
- OpenFile.Inode.PutBytes: where the search for a shard runs off the buffer list the program reads a second buffer; this is an access beyond the first shard and fails here.
- OpenFile.Inode.TakeBytes: the same.
- InodeBuffer.WriteFindsIff: where the search passes over the block's buffer the program goes on to a second one, which is not modelled: the access fails here, and so it does in InodeBuffer.ReadFindsIff.
- OpenFile.Inode.WriteBytes: flushing at close and reading back after reopening are not modelled; block number 0 in the table means no block, so a file may not own it beyond its inode.
- Mount.FormatTable: the numbers the superblock's bitmap gives are an argument; Mount.Grabbed says what they are.
- Mount.FlushReads: a byte of the disk is the i-th byte of the image of a block, so how a metadata block is laid out in bytes is not modelled; a block that lies beyond 4 GiB is not covered.
- Mount.BuildIndex: the array from block to buffer is a sequence, its allocated size is not modelled.
- Sdcs.RunKeepsInv: operations on one key are serialised, gets among themselves excepted, and node ids in the index are those of the nodes; HTTP parsing and serving are not modelled.
- eBPF programs, the vdso lookup, unix domain sockets, the RPC server, the dsdb dump and the unfinished queue template are not part of the model.
- Copies of the modelled code elsewhere in the repository are modelled once.
