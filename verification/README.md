# Verified models of the system programming exercises

The repository is a collection of small C programs, several of which rest on invariants that
no line of their code states. This project models those programs in Dafny and proves what they promise.

- **Buddy allocator** (`BuddyTree`, `BuddyModel`, `BuddyInvariant`, `BuddyProofs`, `BuddyCalls`,
  `BuddyRuns`, `BuddyReserve`, `BuddyGuard`, `FreeListRing`, `SplitBits`, `BuddyAllocator`). The allocator stores one bit per
  tree node and merges by trusting it. The model is a set of functions on a state (free lists in
  order, split bits, limit, granted memory, live blocks); the classes carry out the same calls on a byte
  array, link fields and block headers, and are proved to compute those functions. A node is UNUSED
  when no live block overlaps it; the invariant says that each stored bit is the exclusive-or of the
  children's UNUSED flags and that the free lists hold exactly the maximal UNUSED nodes.
- **XOR linked list** (`XorList`, `XorOrder`, `XorInsertion`, `XorSort`): a heap of nodes that store
  the exclusive-or of their neighbours, sorted in place by insertion and by merging.
- **Lock-free ring** (`SpscRing`, `SpscProofs`, `SpscProgress`): one producer and one consumer as interleaved steps,
  one load, write, read or store at a time, where a load of the other side's index may be old.
- **Mutex ring** (`MutexRing`, `MutexRingProofs`): N threads hand over hand on N + 1 mutexes, with the
  start handshake, for any N and any repetition count.
- **Bit-sliced counter** (`SingleNumber`) and **division by multiplication** (`FastDivision`).
- **Singly linked list** (`Shuffle`, `ShuffleList`): Fisher-Yates, pair swap and reversal through
  pointers to pointers.
- **Message queue** (`MessageQueue`): a buffer mapped twice in a row.
- **Copy-on-write strings** (`CowStrings`, `CowBytes`, `CowOperations`, `CowRuns`).
- **Round-robin scheduler** (`IntrusiveList`, `Scheduler`, `SchedulerTasks`).

`Arithmetic` holds what several of them need about powers of two and division.
`dafny verify dfyconfig.toml` checks the whole project.

Where a promise turned out to hold only on part of the inputs, the exact condition is proved, with an
input outside it: `BuddyRuns.BlockHolds` (64-bit wrap of the request), `BuddyRuns.BootBacked` (ignored
first `brk`), `XorOrder.MergeStable` (ties across a split), `SpscProofs.GrantCovers` (32-bit padding mask),
`SpscProofs.AdvanceTolerates` (the assertion on the written length), `FastDivision.QuickModExact` (divisor
1), `MessageQueue.GuardExact` (64-bit wrap of the message size), `CowStrings.RoomExact` (the 32 bits of
`ilog2`), `CowStrings.LeaksIfHeld` (overwritten handles), `CowOperations.ScansMeet` (a string made of trimmed
bytes only), `CowOperations.Strings.Concat` (target as its own suffix).

## Model

| member | source | states |
|---|---|---|
| `BuddyTree.ScaleIsProduct` | buddy-alloc/alloc.c:178-179 | the shift of `ptr_for_node` is a product |
| `BuddyTree.QuotientIsDivision` | buddy-alloc/alloc.c:188 | the shift of `node_for_ptr` is a division |
| `BuddyTree.PtrNodeInverse` | buddy-alloc/alloc.c:176-189 | `node_for_ptr` undoes `ptr_for_node` for every node of the tree: the bucket and the address name one node |
| `BuddyTree.StartAligned` | buddy-alloc/alloc.c:176-180 | every block starts at a multiple of its own size |
| `BuddyTree.WithinBlocks` | buddy-alloc/alloc.c:72-98 | a node below another in the index arithmetic covers a sub-range of its addresses |
| `BuddyTree.DisjointBlocks` | buddy-alloc/alloc.c:72-98 | two nodes of which neither is above the other cover disjoint address ranges |
| `BuddyInvariant.ParentBit` | buddy-alloc/alloc.c:193-206 | for a live block other than the root, the stored bit of its parent tells whether its buddy is UNUSED |
| `BuddyProofs.RootBit` | buddy-alloc/alloc.c:236-249 | the bit of the root's parent is set exactly when some block is live, so the test in `lower_bucket_limit` is right |
| `BuddyProofs.GrowOneKeeps` | buddy-alloc/alloc.c:232-272 | one doubling of the tree, in either branch, keeps the whole invariant and the live blocks |
| `BuddyProofs.LowerKeeps` | buddy-alloc/alloc.c:230-275 | `lower_bucket_limit` keeps the invariant however far it gets before `brk` fails |
| `BuddyProofs.GrowAtRoot` | buddy-alloc/alloc.c:340-351 | after growing above an exhausted root, the second pop yields the new right child and never NULL |
| `BuddyProofs.MallocComplete` | buddy-alloc/alloc.c:277-404 | with a `brk` that never fails, `bmalloc` returns NULL if and only if the request is too large or no aligned UNUSED block of the needed size exists anywhere in the MAX_ALLOC range |
| `BuddyProofs.EmptyTree` | buddy-alloc/alloc.c:236-249 | with nothing live, the only free block is the root and no bit is set |
| `BuddyProofs.FreeNotNested` | buddy-alloc/alloc.c:225-275 | a free block never lies inside another free block |
| `BuddyCalls.CarveKeeps` | buddy-alloc/alloc.c:387-392 | splitting down to the requested bucket keeps bits and free lists exact around the left-most piece |
| `BuddyCalls.CarveUndone` | buddy-alloc/alloc.c:387-392 | one merge step of `bfree` undoes one split step, bits and list order included |
| `BuddyCalls.ReleaseMerges` | buddy-alloc/alloc.c:434-457 | when `bfree` merges, the buddy it removes blindly really is on that bucket's free list |
| `BuddyCalls.ReleaseKeeps` | buddy-alloc/alloc.c:427-466 | freeing a block keeps bits and free lists exact for the remaining live blocks |
| `BuddyCalls.AllocateKeeps` | buddy-alloc/alloc.c:314-403 | the search loop keeps the invariant; success adds one block that was not live, in the requested bucket, failure leaves the live blocks as they were |
| `BuddyCalls.MallocKeeps` | buddy-alloc/alloc.c:277-404 | `bmalloc` keeps the invariant on every path, takes a block that was not live, and a failed call changes no live block |
| `BuddyCalls.FreeKeeps` | buddy-alloc/alloc.c:406-467 | `bfree` of a live block keeps the invariant and removes exactly that block |
| `BuddyCalls.LocateIsGrowth` | buddy-alloc/alloc.c:314-351 | the search for a block does to bits, lists and limit what growing the tree to some bucket does |
| `BuddyCalls.MallocThenFree` | buddy-alloc/alloc.c:365-466 | `bmalloc` then `bfree` leaves bits and free-list order exactly as growing the tree to some bucket leaves them |
| `BuddyCalls.FreeBuddyInUse` | buddy-alloc/alloc.c:448-457 | two buddies are never both free |
| `BuddyRuns.RunKeeps` | buddy-alloc/alloc.c:277-467 | every run of `bmalloc` and `bfree` on live pointers, whatever `brk` answers, ends in a state where the stored bits are the exclusive-or of the UNUSED flags and the free lists hold exactly the maximal UNUSED nodes |
| `BuddyRuns.TileInside` | buddy-alloc/alloc.c:277-467 | every live or free block lies under the root, aligned to its size |
| `BuddyRuns.TilesDisjoint` | buddy-alloc/alloc.c:277-467 | live and free blocks never overlap |
| `BuddyRuns.TilesCover` | buddy-alloc/alloc.c:277-467 | every address under the root belongs to a live or a free block |
| `BuddyRuns.BlockHolds` | buddy-alloc/alloc.c:208-223 | a live block is in the bucket its stored request selects, so `bfree` finds the bucket of `bmalloc`; it holds the request and its eight bytes if and only if their sum does not wrap around 64 bits, and is 16 bytes or less than twice that sum |
| `BuddyRuns.BootBacked` | buddy-alloc/alloc.c:294-300 | the first list entry is in granted memory if and only if the first `brk`, whose result is ignored, succeeded |
| `BuddyRuns.MallocBacked` | buddy-alloc/alloc.c:353-363 | live blocks and list entries stay below `max_ptr` over a `bmalloc`, failed or not |
| `BuddyRuns.FreeBacked` | buddy-alloc/alloc.c:406-467 | live blocks and list entries stay below `max_ptr` over a `bfree` |
| `BuddyRuns.RunBacked` | buddy-alloc/alloc.c:115-123 | over every run whose first effective call gets its first reservation, all memory in use was granted by the kernel, whichever reservations fail after that |
| `BuddyRuns.RefusedFirstCall` | buddy-alloc/alloc.c:294-300 | where `brk` refuses everything, the first call returns NULL and leaves a list entry in memory that was never granted |
| `BuddyReserve.ReservesWhatItUses` | buddy-alloc/alloc.c:353-363 | after every `bmalloc`, `max_ptr` is where it was, or exactly at the end of a live block or of the list entry of a free block: no byte is asked for that nothing occupies |
| `BuddyReserve.EnoughIsEnough` | buddy-alloc/alloc.c:115-123 | a `brk` that grants the offsets up to the `max_ptr` a never-failing `brk` ends with makes `bmalloc` do the same: same block, same state |
| `BuddyGuard.ListedOff` | buddy-alloc/alloc.c:258-262 | the list entry of a free block lies outside every live block |
| `BuddyGuard.HeldOff` | buddy-alloc/alloc.c:387-392 | so does every part of a block that is being split or merged |
| `BuddyGuard.RightOff` | buddy-alloc/alloc.c:258-262 | so does the entry of the right child that growth adds |
| `BuddyGuard.GuardRing` | buddy-alloc/alloc.c:138-169 | a list operation writes no link inside the blocks it has to leave alone |
| `BuddyRuns.WrappedRequestGranted` | buddy-alloc/alloc.c:286-287 | a request of 2^64 - 8 bytes passes the size test, and a fresh allocator grants it a block that does not hold it |
| `BuddyRuns.FreeAllLeavesOneBlock` | buddy-alloc/alloc.c:427-466 | freeing all live blocks, in any order, leaves one free block at the root |
| `FreeListRing.FreeLists.Init` | buddy-alloc/alloc.c:129-133 | the list becomes empty, the other lists stay |
| `FreeListRing.FreeLists.Push` | buddy-alloc/alloc.c:138-145 | the entry becomes the last of its list, the other lists stay |
| `FreeListRing.FreeLists.Remove` | buddy-alloc/alloc.c:152-158 | the entry leaves whichever list it is on, found through its own links |
| `FreeListRing.FreeLists.Pop` | buddy-alloc/alloc.c:162-169 | the last entry is unlinked and returned; an empty list is reported and left alone |
| `SplitBits.BitArray.ParentIsSplit` | buddy-alloc/alloc.c:193-197 | the byte array read as a set of nodes: is the parent in it |
| `SplitBits.BitArray.FlipParentIsSplit` | buddy-alloc/alloc.c:202-206 | exactly the parent changes membership |
| `BuddyAllocator.BucketForRequest` | buddy-alloc/alloc.c:212-223 | the loop finds the smallest bucket that fits |
| `BuddyAllocator.Allocator.UpdateMaxPtr` | buddy-alloc/alloc.c:115-123 | asks `brk` only for new memory and records what was granted |
| `BuddyAllocator.Allocator.LowerBucketLimit` | buddy-alloc/alloc.c:230-275 | the loop over links, bits and limits computes the model's growth, with the same early exit |
| `BuddyAllocator.Allocator.FindAtRoot` | buddy-alloc/alloc.c:348-350 | grows one level and pops again |
| `BuddyAllocator.Allocator.FindBlock` | buddy-alloc/alloc.c:314-351 | the search through the buckets computes the model's search |
| `BuddyAllocator.Allocator.CarveDown` | buddy-alloc/alloc.c:387-392 | the split loop computes the model's split |
| `BuddyAllocator.Allocator.TakeBlock` | buddy-alloc/alloc.c:357-363 | a refused reservation puts the block back where it was |
| `BuddyAllocator.Allocator.ReleaseBlock` | buddy-alloc/alloc.c:427-466 | the merge loop computes the model's release |
| `BuddyAllocator.Allocator.Malloc` | buddy-alloc/alloc.c:277-404 | the whole call over byte array, links and headers refines the model's `bmalloc`, keeps the invariant and writes no link or header that touches a block live before the call |
| `BuddyAllocator.Allocator.Free` | buddy-alloc/alloc.c:406-467 | the whole call refines the model's `bfree` and writes no link that touches a block still live; the bucket is recovered from the header; NULL is ignored |
| `XorList.StepForward` | xor-linkedlist/xor-linkedlist.h:11 | from a node and one neighbour, XOR gives the other neighbour, in both directions |
| `XorList.ListReversed` | xor-linkedlist/xor-linkedlist.h:5-11 | a well-formed list read from its other end is a well-formed list |
| `XorList.DetachHead` | xor-linkedlist/xor-linkedlist.c:19-28 | clearing the second node's link to the first leaves a well-formed rest |
| `XorInsertion.SpliceKeepsList` | xor-linkedlist/xor-linkedlist.c:68-83 | the link rewrites of one insertion give a well-formed list, also where the neighbour is the last sorted node or there is none before the head |
| `XorInsertion.InsertionSorted` | xor-linkedlist/xor-linkedlist.c:59-83 | one insertion extends the sorted part by one node |
| `XorInsertion.InsertionStable` | xor-linkedlist/xor-linkedlist.c:63-83 | one insertion keeps the order of nodes of equal value |
| `XorOrder.MergeSorted` | xor-linkedlist/xor-linkedlist.c:112-142 | merging two sorted lists gives a sorted list |
| `XorOrder.MergeMembers` | xor-linkedlist/xor-linkedlist.c:112-142 | merging keeps exactly the nodes of both lists |
| `XorOrder.MergeWithValue` | xor-linkedlist/xor-linkedlist.c:112-142 | of every value, the nodes of the right list come before those of the left, each in their order |
| `XorOrder.MergeStable` | xor-linkedlist/xor-linkedlist.c:112-142 | the merge of two sorted halves keeps the order of equal nodes if and only if no value occurs in both halves and each half was sorted stably |
| `XorOrder.MergeStableSorted` | xor-linkedlist/xor-linkedlist.c:112-142 | the merge of two sorted lists without a common node is stable if and only if no value occurs in both |
| `XorOrder.MergeUnstable` | xor-linkedlist/xor-linkedlist.c:113 | two equal nodes, which it exchanges |
| `XorOrder.EqualPairCut` | xor-linkedlist/xor-linkedlist.c:101-107 | a list of two equal nodes is kept in order by threshold 0 only |
| `XorSort.Heap.InsertNode` | xor-linkedlist/xor-linkedlist.c:5-17 | the new node is the head of a well-formed list over the old nodes |
| `XorSort.Heap.DeleteList` | xor-linkedlist/xor-linkedlist.c:19-28 | every node of the list is freed, and no other |
| `XorSort.Heap.ToHalf` | xor-linkedlist/xor-linkedlist.c:30-51 | the list is cut into its first half and the rest, both well formed, with the size of the first |
| `XorSort.Heap.FindPosition` | xor-linkedlist/xor-linkedlist.c:60-67 | the backward scan stops behind the last sorted node that is not greater |
| `XorSort.Heap.Splice` | xor-linkedlist/xor-linkedlist.c:68-83 | the in-place rewrites are those of one insertion |
| `XorSort.Heap.InsertionSort` | xor-linkedlist/xor-linkedlist.c:53-91 | terminates with a well-formed sorted list over the same nodes, equal values in their old order, data unchanged |
| `XorSort.Heap.MergeLists` | xor-linkedlist/xor-linkedlist.c:112-144 | the in-place merge loop builds the merged list, well formed, and touches no other node |
| `XorSort.Heap.MergeSort` | xor-linkedlist/xor-linkedlist.c:93-145 | for every list and every threshold, terminates with a well-formed sorted list over exactly the same nodes, data unchanged; it is stable if and only if none of its splits separates two equal nodes |
| `SpscProofs.BodySize` | producer/producer.c:26-32 | the smallest power of two that is at least the minimum, a multiple of 8 from 8 up |
| `SpscProofs.StepKeeps` | producer/producer.c:83-274 | every atomic step of producer or consumer, repeated requests included, with loads that may return any value stored in the other index since the last load, keeps the layout of the buffer and what may be loaded |
| `SpscProofs.ReadsArePrefix` | producer/producer.c:83-274 | in every interleaving the payloads read are a prefix of those written, in order, and the unread rest is what the buffer holds |
| `SpscProofs.RunKeeps` | producer/producer.c:83-274 | the layout holds after every interleaving |
| `SpscProofs.NoOverwrite` | producer/producer.c:163-195 | no step of the producer writes a byte of an unread element |
| `SpscProofs.ReadsOnlyUnread` | producer/producer.c:206-274 | the consumer reads only bytes of published, unread elements |
| `SpscProofs.IndexFacts` | producer/producer.c:96-195 | both indices are at most size minus 8, and equal exactly when the ring is empty |
| `SpscProofs.GapThenElement` | producer/producer.c:226-243 | every gap is followed by an element at offset 0 |
| `SpscProofs.EmptyAccepts` | producer/producer.c:96-156 | an empty ring accepts every message whose padded need is at most half the size, wherever its indices stand |
| `SpscProgress.RefusedExactly` | producer/producer.c:96-156 | with the newest tail, a request is refused if and only if no reservation of two headers and the padded message fits the free bytes, with or without a gap |
| `SpscProgress.Publishes` | producer/producer.c:83-195 | wherever such a reservation fits, steps of the producer alone publish the message, and exactly its bytes |
| `SpscProgress.LoadSees` | producer/producer.c:206-223 | an idle consumer that loads a head sees data if and only if something was published between its own place and that head, wrapped round or not |
| `SpscProgress.Delivers` | producer/producer.c:206-274 | from every reachable state with unread elements and an idle consumer, steps of the consumer alone read exactly the first unread payload |
| `SpscProofs.GrantCovers` | producer/producer.c:96-156 | grants for a given minimum cover two headers and the message, in every ring and at all indices, if and only if its padding does not wrap around 32 bits |
| `SpscProofs.PaddingWraps` | producer/producer.c:13 | a request close to 2^32 that is granted 63 bytes |
| `SpscProofs.HeaderReadBack` | producer/producer.c:15-17 | an element header written to the buffer reads back as its size and gap flag |
| `SpscProofs.LoadsAreStale` | producer/producer.c:91-95 | in every reachable state, each tail stored since the producer last loaded it has all unread bytes between it and the head, and each head stored since the consumer last loaded it ends a run of unread chunks |
| `SpscProofs.PublishTails` | producer/producer.c:74-81 | publishing moves the head and the unread bytes by the same amount, so old tails stay usable |
| `SpscProofs.PassHeads` | producer/producer.c:197-204 | passing a chunk leaves every head that may still be loaded behind a later chunk |
| `SpscProofs.AdvanceTolerates` | producer/producer.c:163-195 | after a grant, an advance overwrites nothing and keeps the ring from looking empty if and only if header and padded element fit the reservation |
| `SpscProgress.AdvanceEnabledExactly` | producer/producer.c:163-195 | the steps of the model admit an advance if and only if it is so tolerated |
| `SpscProofs.AssertionTooWeak` | producer/producer.c:167 | an element as long as the reservation, which the assertion admits, is never tolerated |
| `SpscProofs.FullWriteOverwrites` | producer/producer.c:167 | where the reservation ends before the tail, it writes over the first unread byte |
| `SpscProgress.OverwriteReached` | producer/producer.c:167 | steps from a fresh ring of 64 bytes to a state in which it happens |
| `MutexRingProofs.ThreadStepKeeps` | mutex-perf/mutexperf.c:58-91 | every step of a contending thread keeps ownership, order and the start count |
| `MutexRingProofs.MainStepKeeps` | mutex-perf/mutexperf.c:107-121 | every step of the main thread keeps them too |
| `MutexRingProofs.UnlockKeeps` | mutex-perf/mutexperf.c:83-89 | a thread unlocks only a mutex that it owns |
| `MutexRingProofs.MutualExclusion` | mutex-perf/mutexperf.c:80-85 | two threads never hold the same mutex |
| `MutexRingProofs.NoOvertaking` | mutex-perf/mutexperf.c:80-85 | in every reachable state the threads are in their starting order round the ring, less than a lap apart |
| `MutexRingProofs.Progress` | mutex-perf/mutexperf.c:58-121 | no reachable state short of the end is deadlocked: some thread can step |
| `MutexRingProofs.FinishedFree` | mutex-perf/mutexperf.c:58-121 | at the end all threads are done and all mutexes free |
| `MutexRingProofs.StepDecreases` | mutex-perf/mutexperf.c:80-85 | every step uses up work, for any number of threads and repetitions |
| `MutexRingProofs.RunsAreFinite` | mutex-perf/mutexperf.c:58-121 | every schedule is bounded by the work at its start |
| `MutexRingProofs.MaximalRunsFinish` | mutex-perf/mutexperf.c:58-121 | every run that cannot be continued has finished, with all mutexes free |
| `MutexRingProofs.TurnsOfThread` | mutex-perf/mutexperf.c:58-91 | in every run that cannot be continued each thread takes exactly 7 + 2 * max(0, reps - 1) turns: its hops and the statements around them |
| `MutexRingProofs.LastUnlock` | mutex-perf/mutexperf.c:80-89 | the last mutex that thread t unlocks is number (t + max(0, reps - 1)) modulo n + 1, and it held it |
| `MutexRingProofs.StartTogether` | mutex-perf/mutexperf.c:63-79 | no thread is past its start mutex before all of them have locked their first mutex and counted themselves |
| `SingleNumber.CarryInto` | bitwise-1/single-num.c:36-39 | a lane of the carry is set when the number has it and all lower words do |
| `SingleNumber.AddWord` | bitwise-1/single-num.c:35-41 | top word first, in place: each lane's counter is incremented by the number's bit |
| `SingleNumber.FullLanes` | bitwise-1/single-num.c:43-46 | the mask marks exactly the lanes whose counter equals k |
| `SingleNumber.ResetFull` | bitwise-1/single-num.c:43-50 | counters at k become 0, all others stay |
| `SingleNumber.CountsStep` | bitwise-1/single-num.c:34-51 | after each element every lane holds the number of set bits modulo k |
| `SingleNumber.GeneralSingleNumber` | bitwise-1/single-num.c:25-53 | each lane of the result is the lowest bit of that lane's count modulo k |
| `SingleNumber.SingleNumberOfThree` | bitwise-1/single-num.c:55-65 | `lower` and `higher` say in each lane that the count is 1 or 2 modulo 3 |
| `SingleNumber.OnceTwiceStep` | bitwise-1/single-num.c:58-63 | one round of the two-word counter keeps that |
| `SingleNumber.SingleFound` | bitwise-1/single-num.c:25-53 | for every k from 2 up: if one value occurs once and every other a multiple of k times, the result is that value |
| `SingleNumber.NothingModuloOne` | bitwise-1/single-num.c:25-53 | with k = 1, which the assertion admits, the result is always 0 |
| `SingleNumber.SameAtThree` | bitwise-1/single-num.c:25-65 | `singleNumber` and `generalSingleNumber(3, ...)` agree on every array |
| `FastDivision.DivideByMultiplying` | bitwise-1/div.c:31-53 | multiplying by a reciprocal rounded up by little enough gives the quotient, and a low part below M exactly for multiples |
| `FastDivision.QuotientExact` | bitwise-1/div.c:31-39 | for every 32-bit divisor and dividend, the shifted product is n / d if and only if d is at least 2 or n is 0 |
| `FastDivision.QuickModExact` | bitwise-1/div.c:35-39 | `quickmod` is n mod d if and only if d is at least 2 or n is 0 (for d = 1 the constant wraps to 0) |
| `FastDivision.QuickModByOne` | bitwise-1/div.c:35-39 | with d = 1 and n = 1 it returns 1 |
| `FastDivision.DivisibleExact` | bitwise-1/div.c:50-53 | `divisible` holds exactly when d divides n, for every divisor, 1 included |
| `Shuffle.ShuffledPermutes` | swap-pairs/link-list.c:71-95 | every choice sequence leads to a permutation |
| `Shuffle.ShuffledInjective` | swap-pairs/link-list.c:71-95 | different choice sequences lead to different orders |
| `Shuffle.ChoicesFor` | swap-pairs/link-list.c:71-95 | for each order, the choices that lead to it |
| `Shuffle.ChoicesArePermutations` | swap-pairs/link-list.c:71-95 | choice sequences and permutations of the list correspond one to one |
| `Shuffle.PairsSwappedTwice` | swap-pairs/link-list.c:44-53 | swapping pairs twice gives the list back |
| `Shuffle.ReversedAt` | swap-pairs/link-list.c:55-64 | the reversed list, position by position |
| `Shuffle.ReversedTwice` | swap-pairs/link-list.c:55-69 | reversing twice gives the list back |
| `ShuffleList.ExchangeNeighbours` | swap-pairs/link-list.c:86-91 | when the partner comes next, the first store ties a self-loop which the later stores undo |
| `ShuffleList.ExchangeSwaps` | swap-pairs/link-list.c:86-91 | the pointer stores of one exchange swap two nodes of an acyclic list, also when they are the same or adjacent |
| `ShuffleList.LinkedList.Ahead` | swap-pairs/link-list.c:82-85 | the walk stops at the slot j links ahead |
| `ShuffleList.LinkedList.FisherYates` | swap-pairs/link-list.c:71-95 | the list afterwards is an acyclic list of the same nodes in the order the drawn choices name; other nodes keep their links |
| `ShuffleList.LinkedList.SwapPairs` | swap-pairs/link-list.c:44-53 | neighbours are swapped two by two, an odd last node stays |
| `ShuffleList.LinkedList.ReverseFrom` | swap-pairs/link-list.c:55-64 | the recursion reverses the chain in place |
| `ShuffleList.LinkedList.Reverse` | swap-pairs/link-list.c:66-69 | the list is reversed |
| `MessageQueue.DecodeEncode` | ring-buffer/queue.h:40-43 | a header field written to memory reads back |
| `MessageQueue.ParseEncoded` | ring-buffer/queue.h:40-43 | the framed messages read back as exactly the messages, numbered in a row |
| `MessageQueue.ViewAppend` | ring-buffer/queue.h:160-165 | writing behind the tail keeps the unread bytes and appends the new ones, across the seam of the two mappings |
| `MessageQueue.MirrorIs` | ring-buffer/queue.h:92-104 | an address of the second mapping is the same byte of the first, and a view inside one mapping is a slice of the memory |
| `MessageQueue.ViewMirrored` | ring-buffer/queue.h:209-214 | one lap back, the same bytes |
| `MessageQueue.PutKeeps` | ring-buffer/queue.h:148-168 | a put appends its message with the next number and stays below twice the size |
| `MessageQueue.LookFinds` | ring-buffer/queue.h:177-202 | a get waits on an empty queue, passes over a first message longer than its buffer, and otherwise finds exactly the first message |
| `MessageQueue.ConsumeKeeps` | ring-buffer/queue.h:204-214 | taking the first message leaves the others, with head < size and tail <= head + size |
| `MessageQueue.RunKeeps` | ring-buffer/queue.h:148-221 | over every run of locked sections of any threads, accepted = delivered + unread |
| `MessageQueue.FifoInBuffer` | ring-buffer/queue.h:148-221 | in every reachable state the bytes between head and tail decode to exactly the unread messages; the number of each is its place among all messages accepted, `head_seq` counts the delivered and `tail_seq` the accepted ones, modulo 2^64 |
| `MessageQueue.GuardExact` | ring-buffer/queue.h:152-154 | the wait condition of `queue_put` tells whether there is room if and only if size and header do not wrap around 64 bits, or wrap to more than what is free |
| `MessageQueue.GuardFooled` | ring-buffer/queue.h:152-154 | a size of 2^64 - 16 passes it on every queue |
| `MessageQueue.Queue.CopyIn` | ring-buffer/queue.h:160-162 | the copy through the mirrored mapping |
| `MessageQueue.Queue.CopyOut` | ring-buffer/queue.h:188-205 | the read through the mirrored mapping |
| `MessageQueue.Queue.PutMessage` | ring-buffer/queue.h:148-168 | in place: room is needed for message and header; then the queue holds one message more, else nothing changes |
| `MessageQueue.Queue.GetMessage` | ring-buffer/queue.h:177-221 | in place: returns and removes exactly the first message, or waits and changes nothing |
| `CowStrings.RoomFor` | xstring/xs.c:41-57 | `ilog2(len) + 1` makes a buffer that holds len characters and their terminator |
| `CowStrings.Snug` | xstring/xs.c:41-57 | that buffer is at most twice as long |
| `CowStrings.RoomExact` | xstring/xs.h:88-91 | as `ilog2` takes 32 bits, that holds if and only if the length is below 2^32, multiples of 2^32 aside |
| `CowStrings.RoomMissing` | xstring/xs.c:26-32 | for 2^32 + 16 bytes `xs_new` makes a buffer of 32 |
| `CowStrings.SameCapacity` | xstring/xs.c:59-64 | a copy grown to the capacity of the original has the same capacity |
| `CowStrings.HeldBuffers` | xstring/xs.h:112-121 | as long as nothing has leaked, a buffer is on the heap exactly while some handle points at it |
| `CowStrings.StillThere` | xstring/xs.h:112-121 | dropping one handle never takes or changes the buffer another handle reads |
| `CowStrings.Released` | xstring/xs.h:112-121 | freeing a handle takes away one handle and one reference, and the buffer with the last |
| `CowStrings.LeaksIfHeld` | xstring/xs.c:23-26 | overwriting a handle keeps every count equal to the number of handles if and only if the handle held no buffer |
| `CowStrings.OverwriteLeaks` | xstring/xs.c:23-26 | a handle whose overwriting leaves a count one too many |
| `CowStrings.Shares` | xstring/xs.c:185-199 | sharing a buffer adds one handle and one reference; the other handles read as before |
| `CowStrings.GetsFresh` | xstring/xs.c:59-69 | a handle of a new buffer leaves the other handles' bytes, and counts exact if it held nothing before |
| `CowStrings.Rewritten` | xstring/xs.c:71-84 | a buffer with one handle can be rewritten without another handle seeing it |
| `CowStrings.OneChanged` | xstring/xs.c:71-144 | changing one handle's value leaves what all others read |
| `CowOperations.ScansMeet` | xstring/xs.c:115-126 | `slen -= i` does not wrap if and only if the string is empty or has a byte outside the set |
| `CowOperations.ScansTrim` | xstring/xs.c:115-126 | where they meet, the two scans cut out the trimmed string |
| `CowOperations.TrimmedMeaning` | xstring/xs.c:102-144 | trimming takes off only bytes of the set and stops at bytes outside it |
| `CowOperations.Scan` | xstring/xs.c:108-124 | the mask and the two loops find the first and last byte outside the set |
| `CowOperations.ScansPass` | xstring/xs.c:119-126 | on a string of two blanks, trimmed of blanks, the scans stop at 2 and 0 |
| `CowBytes.CopyForwardOverlap` | xstring/xs.c:83 | a copy that overlaps its source by one byte and runs forward ends in the first byte again |
| `CowBytes.SuffixElsewhere` | xstring/xs.c:79-83 | in place with the suffix elsewhere the bytes are prefix, target, suffix and terminator, also when the target is its own prefix |
| `CowBytes.SuffixInside` | xstring/xs.c:79-83 | in place with the target as its own suffix, the tail and the last byte are those of the moved target |
| `CowBytes.InPlaceOutcome` | xstring/xs.c:79-83 | what the in-place branch leaves, with prefix and suffix inside or outside the bytes it moves |
| `CowOperations.PointerKept` | xstring/xs.c:76-80 | a pointer taken before `xs_cow` reads the same after it, and points at the bytes about to change if and only if it is the target's own and they were not shared |
| `CowOperations.ConcatWorksPlain` | xstring/xs.c:71-100 | for strings without zero bytes, apart from inline results of 15 characters: `xs_concat` works if and only if the suffix is not the target, or the buffer is shared or too small, or prefix and target are empty, or the prefix is empty and the overlapping copy does not run forward |
| `CowOperations.SelfSuffixFails` | xstring/xs.c:79-83 | two inline strings on which it goes wrong |
| `CowOperations.Strings.NewString` | xstring/xs.c:23-38 | the handle reads as the given string, inline up to 15 characters and otherwise in a new buffer of less than twice the needed bytes; the others are unchanged; a buffer leaks if and only if the handle still held one |
| `CowOperations.Strings.FreeString` | xstring/xs.h:112-121 | the handle becomes empty; the buffer goes exactly with its last reference |
| `CowOperations.Strings.CopyString` | xstring/xs.c:185-199 | the destination reads as the source and the count of a shared buffer rises; a buffer leaks if and only if the destination still held one |
| `CowOperations.Strings.Cow` | xstring/xs.c:59-69 | afterwards no other handle points at the bytes, which are the same up to the terminator; the capacity stays, and so does the buffer unless it was shared |
| `CowOperations.Strings.ConcatInPlace` | xstring/xs.c:76-83 | in place, with the pointers to prefix and suffix taken first: right and terminated if and only if the copied tail is |
| `CowOperations.Strings.Concat` | xstring/xs.c:71-100 | for all targets, prefixes and suffixes, the target reads as prefix + target + suffix if and only if the condition holds that a caller can check; the buffer stays while it is large enough and not shared, and a new one is less than twice the result; all other handles read as before in any case |
| `CowOperations.Strings.Trim` | xstring/xs.c:102-144 | the target reads as its trimmed string and keeps its buffer unless it was shared; all other handles read as before |
| `CowRuns.OthersUnchanged` | xstring/xs.c:23-144 | a handle that no call of a sequence writes reads the same after it |
| `CowRuns.Perform` | xstring/xs.c:23-199 | each call is the plain string operation; which handles have a buffer follows from the lengths; counts stay exact unless it overwrites a handle that has one |
| `CowRuns.HeldIsUsed` | xstring/xs.c:23-144 | a handle that has a buffer has been written and not freed since |
| `CowRuns.TidyLeaksNothing` | xstring/xs.c:23-199 | a sequence that creates and copies only into unused or freed variables overwrites no handle that has a buffer, whatever the strings are |
| `CowRuns.PerformAll` | xstring/xs.c:23-199 | after every sequence of creations, copies, concats, trims and frees each handle reads as the plain string operations leave it, and every count is the number of handles if and only if it was before and no creation or copy overwrote a handle that had a buffer, which is told from the calls and the values at the start |
| `CowRuns.PerformTidy` | xstring/xs.c:23-199 | for a tidy sequence the counts stay exact and a buffer is on the heap exactly while a handle points at it |
| `IntrusiveList.InsertKeepsRing` | user-level-thread/list.h:94-117 | adding a node behind a position keeps a doubly linked ring |
| `IntrusiveList.RemoveKeepsRing` | user-level-thread/list.h:135-147 | removing a node keeps the ring of the others |
| `IntrusiveList.SpliceKeepsRing` | user-level-thread/list.h:194-208 | splicing joins two rings into one, in order |
| `IntrusiveList.CutKeepsRings` | user-level-thread/list.h:287-308 | cutting splits a ring into two |
| `SchedulerTasks.TaskHeap.ListAdd` | user-level-thread/list.h:94-102 | in place, the node comes first; nodes of other lists keep their links |
| `SchedulerTasks.TaskHeap.ListAddTail` | user-level-thread/list.h:109-117 | in place, the node comes last |
| `SchedulerTasks.TaskHeap.ListDel` | user-level-thread/list.h:135-147 | in place, the node is gone from its list |
| `SchedulerTasks.TaskHeap.ListMove` | user-level-thread/list.h:318-322 | in place, from one list to the front of another |
| `SchedulerTasks.TaskHeap.ListSplice` | user-level-thread/list.h:194-208 | in place, the nodes of one list come first in the other; an empty list changes nothing |
| `SchedulerTasks.TaskHeap.ListCut` | user-level-thread/list.h:287-308 | in place, the first nodes move behind the other head; an empty source changes nothing |
| `SchedulerTasks.TaskHeap.TaskInit` | user-level-thread/task_sched.c:55-62 | the ring holds the main task alone and the reap list is empty |
| `SchedulerTasks.TaskHeap.TaskAdd` | user-level-thread/task_sched.c:131-152 | the task becomes the last before the main task in the run ring |
| `SchedulerTasks.TaskHeap.SwitchAway` | user-level-thread/task_sched.c:86-95 | `schedule` up to the switch, on the links: next task chosen, the current one moved to the reap list if it is done |
| `SchedulerTasks.TaskHeap.CleanReaps` | user-level-thread/task_sched.c:97-101 | the clean-up loop unlinks and frees exactly the tasks on the reap list |
| `SchedulerTasks.TaskHeap.RunSchedule` | user-level-thread/task_sched.c:86-102 | the whole of `schedule` on the links computes the model's: the switch, and the clean-up if the next task was switched out here before |
| `SchedulerTasks.TaskHeap.TimerHandler` | user-level-thread/task_sched.c:154-165 | schedules exactly when preemption is not disabled |
| `SchedulerTasks.TaskHeap.TaskReturn` | user-level-thread/task_sched.c:124-128 | a task whose callback has returned marks itself and schedules |
| `Scheduler.StepKeeps` | user-level-thread/task_sched.c:86-165 | every step keeps ring, reap list and freed tasks disjoint, and the main task in the ring |
| `Scheduler.SwitchIsSafe` | user-level-thread/task_sched.c:86-102 | `schedule` switches to a task of the ring, never to a reaped or freed one, and never frees the one it switched to |
| `Scheduler.OnePlace` | user-level-thread/task_sched.c:73-102 | every task is in exactly one of run ring, reap list and freed |
| `Scheduler.TasksConserved` | user-level-thread/task_sched.c:86-152 | no step loses a task or makes one up |
| `Scheduler.RunKeeps` | user-level-thread/task_sched.c:86-165 | the invariant holds after every run |
| `Scheduler.QuietKeeps` | user-level-thread/task_sched.c:14-22 | the counter is the current task's own, if callbacks are balanced |
| `Scheduler.PreemptZeroAtSwitches` | user-level-thread/task_sched.c:115-165 | in every run with balanced callbacks, `preempt_count` is 0 at every switch |
| `Scheduler.SectionUndisturbed` | user-level-thread/task_sched.c:14-22 | from a counter at rest, over every sequence of disables, enables, additions and ticks that has more disables than enables in each prefix, the current task keeps the processor |
| `Scheduler.SectionEnds` | user-level-thread/task_sched.c:154-165 | as soon as the two counts are equal again, the next tick switches to the next task of the ring |
| `Scheduler.RestAfterSwitch` | user-level-thread/task_sched.c:14-22 | the counter is at rest at the start and after every switch |
| `Scheduler.FinishLeaves` | user-level-thread/task_sched.c:115-128 | a task that returns leaves the ring at its next `schedule`, to the reap list or freed, the next task runs and the others keep their order |
| `Scheduler.SwitchIsNearer` | user-level-thread/task_sched.c:86-95 | a switch brings every waiting task one place nearer, whether or not the current task leaves |
| `Scheduler.WaitsLessThanRing` | user-level-thread/task_sched.c:86-102 | without additions, a task of the ring waits for fewer switches than the ring is long |
| `Scheduler.MainLoopEnds` | user-level-thread/task_sched.c:251-270 | whenever the main task runs the reap list is empty, so its loop ends exactly when every other task has been freed |

## Left out

- BuddyRuns.MallocBacked: the claim about granted memory is made for runs whose very first reservation succeeds, because its result is ignored (buddy-alloc/alloc.c:297); `BuddyRuns.BootBacked` shows what happens otherwise.
- BuddyRuns.RunBacked: as for BuddyRuns.MallocBacked.
- `brk` answers through a function of the address, chosen anew for each call; `sbrk(0)` is offset 0. The comment above `list_pop` says it takes the first entry; the code takes the last, and so does the model.
- Programs that write outside their blocks, double frees and frees of foreign pointers: `bfree` is modelled on pointers that `bmalloc` returned.
- XorSort.Heap.InsertNode: the address `malloc` returns is a parameter, fresh and not NULL. `to_half` reads its argument before testing it for NULL, so the model gives it at least the two nodes its caller guarantees. `int` data and sizes are unbounded.
- SpscProofs.ReadsArePrefix: body sizes are multiples of 8 (every power of two from 8 up) and an element is shorter than 2^32 - 7 bytes and fits its reservation together with its header; by `SpscProofs.AdvanceTolerates` nothing longer is safe, although the assertion (producer/producer.c:167) admits it. `& mask` is written as taking off one lap. Memory ordering is modelled as loads that return any value stored since the last load, with buffer contents up to date.
- SpscProofs.StepKeeps: as for SpscProofs.ReadsArePrefix.
- MutexRingProofs.Progress: spurious wake-ups of the condition variable and the timing code are not modelled; the two other benchmarks of mutexperf.c are not modelled.
- SingleNumber.GeneralSingleNumber: words are 32-bit vectors; k is given by its binary digits, which `(1 << i) & k` reads off.
- ShuffleList.LinkedList.FisherYates: `rand` is a function of the round; that `rand() % (i + 1)` is not exactly uniform is not discussed. `add_entry`, `find_entry` and `remove_entry` would only add easy members.
- MessageQueue.Queue.PutMessage: a locked section that has to wait is a step that changes nothing and may be repeated; which thread is woken when is not claimed, since one condition variable serves both writers and readers of long messages. A message and its header are shorter than 2^64 bytes; `MessageQueue.GuardExact` says what the test does otherwise. `mmap` is the mirrored address arithmetic.
- MessageQueue.Queue.GetMessage: as for MessageQueue.Queue.PutMessage.
- CowOperations.Strings.Concat: lengths stay below 2^32, the range of `ilog2` although the header file promises 2^54 - 1; by `CowStrings.RoomExact` longer strings do not fit the buffers made for them. `malloc` does not fail. The order in which `memcpy` copies bytes that overlap is a parameter. What a handle is once its flag bits are overwritten is not modelled further.
- CowOperations.Strings.NewString: the string has no zero byte in the source, which takes its length with `strlen`; the model allows any bytes.
- CowOperations.Strings.Trim: needs an empty string or a byte outside the set; by `CowOperations.ScansMeet` the code wraps its length in exactly the other cases. The 32-byte mask is 256 flags.
- `xs_tok_r`, `xs_grow` on strings that are not empty, and the DISABLE_COW variant.
- Scheduler.StepKeeps: `swapcontext` and signal masks are modelled by making `schedule` one step; stacks, `ualarm`, the sorting callbacks, `cmp_u32` and `random_shuffle` are left out. Task names are not reused after a task is freed.
- `list_splice_tail`, the `_init` variants and `list_move_tail`: the same joins in another order.
- event-loop, timerfd, proxy, simple-logfs, mmap-alloc, embedded-payload, coroutine, key-value, xvector, cdefer, utime and the other programs of bitwise-1: kernel plumbing or short bit tricks.
