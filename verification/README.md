# Verified models of the lock-free ring, the red-black tree, the array index and the smaller cores

The Dafny files here model the stateful cores of this collection of C and C++ exercises and
prove what their comments, tests and designs promise.

* `RingProtocol`, `RingTheorems`, `RingCalls`, `RingExample` - the multi-producer multi-consumer ring of `dpdk_ring/` as a
  step system: every load, compare-and-set, slot access and tail store of any number of
  producers and consumers is one step. Positions are unbounded numbers; everything the program
  compares or subtracts is their 32-bit word. `RingCalls` follows whole calls from begin to end.
* `RingCopy`, `RingQueue` - the same ring as one caller sees it: the unrolled and wrapping copy
  macros on arrays, creation, and enqueue and dequeue as a bounded FIFO queue.
* `RbShape`, `RbLayout`, `RbRepair`, `RbTree` - the pointer-based red-black tree of `rbtree/`
  with parent links and the shared sentinel. `RbShape` has the shapes (trees, and trees with a
  hole), `RbLayout` what the node fields hold for a shape, `RbRepair` the colour argument of
  both fix-up loops, `RbTree` the class with the operations on nodes.
* `FbWords`, `FbMasks`, `FbSearch`, `FbTheorems`, `FbArray` - the bit mask index of
  `dpdk_fbarray/`: 64-bit words as numbers with C's operators, what a search sees of a word,
  `find_next_n` entry by entry and what follows from that, and the class with all searches.
* `RwLock` - both reader/writer locks as a step system, with searches and updates of the index
  running under them one memory access at a time.
* `HugePages` - the split of the requested memory over sockets and the choice of huge pages
  of `dpdk_eal/mem.c`.
* `ThreadPool` - the condition-variable thread pool of `pools/thread_pool/ThreadPool.h` as a
  step system.
* `MemPool` - the growing block pool of `vpn/com_lib/mem_lib/mem_pool.h` on raw bytes, with the
  free list inside the free blocks and each page header behind its blocks.
* `TailQueue`, `SimpleQueue`, `CircleQueue` - the queue macros of `sys_queue/sys_queue.h` on
  linked objects, and the task queue of `pools/thread_pool/thread_pool.cpp`.
* `Powers` - powers of two, `&` on numbers, and 32-bit words.

How the models stand to the programs:

* Atomic accesses are sequentially consistent steps. A block under a mutex or a spin lock is
  one step.
* Ring: a run assumes that no thread makes its compare-and-set while the head has the word it
  loaded but has moved a multiple of 2^32 since (`NoAba`), and one producer (consumer) at a time
  on a ring that was made single-producer (single-consumer). Slot counts are powers of two from 1 to
  2^30; `Ring.Create` also shows what the accepted count 0 gives. Objects are numbers.
  `enq` and `deq` in the state are history that no step reads.
* The ring's comments say of `free_entries` and of `entries` that they always lie between 0 and
  the capacity (rte_ring_c11_mem.h:73-78, 140-144). The code does not keep to that:
  `FreeWithinCapacity` and `EntriesWithinCapacity` say exactly when they do, `StaleRun` and
  `StaleEntries` are runs in which they do not. For the same reason a FIXED call with a stale head
  may get nothing though there is room, or entries: `FixedRefusal` and `FixedShortage` say exactly
  when every refusal is right, `SpuriousRefusal` and `SpuriousShortage` are runs that end in a
  wrong one.
* Tree: the ghost field `tree` of the class is the shape of the linked nodes; `Linked` says that
  the fields are exactly those of the shape. Loop bodies of the fix-ups are methods of their own.
* Array index: a C shift by a variable amount is a repeated shift by one. Where `find_next_n`
  shifts by 64, which C leaves undefined, the mask is arbitrary. `Finds` is its loop entry by
  entry; `RunSearched` lists what it promises. From a start in a partial last word it searches
  all of that word: `LastWordIsLeast` says when the result is the least run from start to the
  end, `OneIsNext`, `OneCallIsNext` and `AlwaysNext` when a search for one entry is `find_next`,
  `OneIsNotNext` gives two calls for which it is not. From an earlier start, too, a run of free
  entries can end beyond a length that is no multiple of 64, since neither the look-ahead nor the
  mask after a lost run keeps to the length: `RangeIs` says for which start, n and length every
  array's result ends by the length, `Overrun` gives for all others an array whose one answer
  does not, `OverrunExample` a small one. For n = 0 nothing is found: n - 1 wraps round.
* Huge pages: `get_socket_mem_size` is the sum of page size times free pages of a socket, the
  entries of `hp_used` start at zero with the page sizes of `hp_info`, and products and
  sums do not overflow. Any number of sockets and page sizes. Amounts forced on sockets may add up
  to more than the memory: `UsedUp` says at which socket the loop then stops.
* Locks: fewer than 2^31 - 1 threads. A search is any program that loads one value after the other
  (`Program`); `find_next` is also there word by word. One state field tells the lock whose writer
  unlocks by an increment from the one whose writer stores 0; the weak compare-and-set of the
  latter may also fail on an equal word.
* Thread pool: `enqueue` does not look at the shutdown flag, so a job can be accepted that is
  never run: `LostExactly` says when, `LateJobIsLost` is such a run.
* Block pool: memory is bytes, and a pointer is eight of them, the lowest first. The code asks for
  a block size above 0 only. With less than the size of a pointer the last link sets the lowest
  bytes of the page's `beg` to zero (`SmallBlocks`), which leaves it as it was exactly if they were
  zero (`HeaderSurvives`); the pool is valid from 8 bytes on. What malloc answers is a parameter.
  Freeing a block that is free already is not detected: `Free` says what it stores, `DoubleFree`
  that the chain then goes round for ever.
* Queues: an object stands for a head or an element, since both have the same layout in C, and
  the address of the cell with its next pointer is the object itself.

## Model

| member | source | states |
|---|---|---|
| RingTheorems.Fifo | dpdk_ring/rte_ring.h:324-387 | in every state of every run what was dequeued is a prefix of what was enqueued, each in the order of its own head; nothing is lost, duplicated, reordered or read before it is published |
| RingTheorems.Conservation | dpdk_ring/rte_ring.h:324-387 | between calls, the enqueued objects are the dequeued ones followed by those in the slots, which are at most the capacity |
| RingTheorems.DequeueReturns | dpdk_ring/rte_ring.h:366-387 | a dequeue that has copied its share holds consecutive objects exactly as they were enqueued |
| RingTheorems.HistoryGrows | dpdk_ring/rte_ring.h:324-387 | over a run enqueued objects are only appended and an object that came out stays the one for its position |
| RingTheorems.StepExtends | dpdk_ring/rte_ring.h:263-289 | only a consumer's copy takes an object out, always one that was not out yet |
| RingTheorems.IndexBounds | dpdk_ring/rte_ring_c11_mem.h:66-98 | cons.tail <= cons.head <= prod.tail <= prod.head <= cons.tail + capacity in every reachable state |
| RingTheorems.OneOwner | dpdk_ring/rte_ring_c11_mem.h:89-98 | a position lies between tail and head exactly if a thread in flight has reserved it, and then only one |
| RingTheorems.WritersApart | dpdk_ring/rte_ring.h:232-258 | two producers in flight never write the same slot |
| RingTheorems.ReaderApart | dpdk_ring/rte_ring.h:232-289 | no consumer in flight reads a slot that a producer in flight writes |
| RingTheorems.CopyStepStores | dpdk_ring/rte_ring.h:232-258 | the single copy steps of an undisturbed producer build up what the copy macro stores at once |
| RingTheorems.CopyStepFetches | dpdk_ring/rte_ring.h:263-289 | the single copy steps of a consumer fetch what the copy macro fetches at once |
| RingTheorems.ProducerTurn | dpdk_ring/rte_ring_c11_mem.h:16-31 | while producers are in flight exactly one has its start equal to the tail word: the one that reserved first |
| RingTheorems.ConsumerTurn | dpdk_ring/rte_ring_c11_mem.h:16-31 | the same for consumers |
| RingTheorems.ProducerAdvances | dpdk_ring/rte_ring_c11_mem.h:16-31 | the producer whose turn it is can always make a step that brings it nearer to its end |
| RingTheorems.ConsumerAdvances | dpdk_ring/rte_ring_c11_mem.h:16-31 | the same for consumers |
| RingTheorems.ProducersFinish | dpdk_ring/rte_ring_c11_mem.h:16-31 | from every reachable state all producers in flight can finish by their own steps: the wait for the tail cannot deadlock |
| RingTheorems.ConsumersFinish | dpdk_ring/rte_ring_c11_mem.h:16-31 | the same for consumers |
| RingTheorems.WinnerCounts | dpdk_ring/rte_ring_c11_mem.h:66-98 | a producer that wins its compare-and-set knew the true free count for the tail it read, gets all it asked for or what is free, with FIXED all of it, and fits the ring as it is now |
| RingTheorems.TakerCounts | dpdk_ring/rte_ring_c11_mem.h:134-163 | the same for a consumer and the entries |
| RingTheorems.FixedRefusal | dpdk_ring/rte_ring_c11_mem.h:66-87 | a FIXED enqueue returns 0 exactly if it asks for more than the free word; every such refusal is right exactly if the room and the positions by which the loaded head is behind, modulo 2^32, come to less than 2^32 |
| RingTheorems.FixedShortage | dpdk_ring/rte_ring_c11_mem.h:134-153 | the same for a FIXED dequeue and the entries |
| RingTheorems.FreeWithinCapacity | dpdk_ring/rte_ring_c11_mem.h:73-79 | the free count lies within the capacity exactly if head minus tail does, modulo 2^32; for heads less than 2^32 - capacity stale exactly if the tail has not passed the head |
| RingTheorems.EntriesWithinCapacity | dpdk_ring/rte_ring_c11_mem.h:140-146 | the entry count lies within the capacity exactly if tail minus head does, modulo 2^32 |
| RingTheorems.CountBetween | dpdk_ring/rte_ring.h:669-676 | what the count means beside other threads: with the tails read at two moments it is the entries published by the first and not freed by the second, and no more than there were at either, exactly if the consumers have not passed the producer tail read; else it is off by a multiple of the size |
| RingCalls.EnqueueEnds | dpdk_ring/rte_ring_c11_mem.h:56-99 | every enqueue that ends, in any run, either moved the head once, by all it asked for or all the free entries it computed, and its objects are enqueued in order from there and published; or it read a head and a tail for which FIXED asks for more than is free, or VARIABLE finds nothing free, or it asked for nothing; a lost race ends no call |
| RingCalls.DequeueEnds | dpdk_ring/rte_ring_c11_mem.h:124-164 | the same for every dequeue: what it copied out is what was enqueued from where it moved the head, as much as the entries it computed allow |
| RingCalls.EnqueueLost | dpdk_ring/rte_ring_c11_mem.h:64-98 | an enqueue starts over, with all its objects, only if another call has moved the head since it read it |
| RingCalls.DequeueLost | dpdk_ring/rte_ring_c11_mem.h:132-163 | the same for a dequeue |
| RingCalls.EnqueueCanGoOn | dpdk_ring/rte_ring_c11_mem.h:64-98 | an enqueue that has not moved the head yet can always make its next step |
| RingCalls.DequeueCanGoOn | dpdk_ring/rte_ring_c11_mem.h:132-163 | the same for a dequeue |
| RingExample.StaleRun | dpdk_ring/rte_ring_c11_mem.h:73-79 | a run, step by step, in which a producer reads a free count above the capacity |
| RingExample.StaleEntries | dpdk_ring/rte_ring_c11_mem.h:140-146 | a run in which a consumer reads an entry count above the capacity |
| RingExample.SpuriousRefusal | dpdk_ring/rte_ring_c11_mem.h:66-87 | a run, through 2^32 - 1 rounds of a ring of two slots, that ends in the refusal of one object on an empty ring |
| RingExample.SpuriousShortage | dpdk_ring/rte_ring_c11_mem.h:134-153 | a run that ends with a dequeue of one object getting nothing though one is there |
| RingExample.WrongCount | dpdk_ring/rte_ring.h:669-676 | a run in which the count, its tails read at two moments with the ring empty at both, is 1 |
| RingExample.Rounds | dpdk_ring/rte_ring.h:324-387 | any number of objects goes through while two threads wait with old heads |
| RingProtocol.RunKeeps | dpdk_ring/rte_ring.h:324-387 | the invariant of shared memory and of every thread holds in every state of every run |
| RingProtocol.StepKeeps | dpdk_ring/rte_ring_c11_mem.h:56-164 | each single step of any thread keeps it |
| RingProtocol.PMoveHeadKeeps | dpdk_ring/rte_ring_c11_mem.h:89-98 | a won or lost move of the producer head keeps it |
| RingProtocol.CMoveHeadKeeps | dpdk_ring/rte_ring_c11_mem.h:154-163 | a won or lost move of the consumer head keeps it |
| RingProtocol.PCopyOneKeeps | dpdk_ring/rte_ring.h:232-258 | writing one slot disturbs no live entry and no other thread |
| RingProtocol.CCopyOneKeeps | dpdk_ring/rte_ring.h:263-289 | reading one slot gives the object enqueued for that position |
| RingProtocol.PPublishKeeps | dpdk_ring/rte_ring_c11_mem.h:16-31 | publishing the producer tail exposes only slots that are fully written |
| RingProtocol.CPublishKeeps | dpdk_ring/rte_ring_c11_mem.h:16-31 | publishing the consumer tail frees only slots that are fully read |
| RingProtocol.HeadWon | dpdk_ring/rte_ring_c11_mem.h:73-98 | equal words mean an unmoved head, and the reservation stays within the capacity |
| RingProtocol.TailWon | dpdk_ring/rte_ring_c11_mem.h:140-163 | equal words mean an unmoved head, and only published entries are reserved |
| RingProtocol.FreeIs | dpdk_ring/rte_ring_c11_mem.h:79 | the wrapped free count is the true one modulo 2^32, and when it is the true one |
| RingProtocol.EntriesIs | dpdk_ring/rte_ring_c11_mem.h:146 | the same for the entries |
| RingProtocol.SlotIs | dpdk_ring/rte_ring.h:66-74 | masking the 32-bit word of a position gives the position modulo the ring size |
| Powers.MaskIsMod | dpdk_ring/rte_ring.h:235 | `&` with size - 1 is the remainder modulo the size |
| Powers.ClearLowTwo | dpdk_ring/rte_ring.h:238 | `n & ~3` is n less its remainder modulo 4 |
| Powers.PowerOfTwoTest | dpdk_ring/rte_ring.c:20 | for x > 0 the test holds exactly for powers of two |
| RingCopy.EnqueuePtrs | dpdk_ring/rte_ring.h:232-258 | the unrolled and the wrapping copy both leave object i in slot (head + i) mod size and every other slot alone |
| RingCopy.DequeuePtrs | dpdk_ring/rte_ring.h:263-289 | the caller's table gets the objects of slots (head + i) mod size, its rest is untouched |
| RingCopy.StoredAt | dpdk_ring/rte_ring.h:232-258 | slot by slot, what a copy in leaves |
| RingCopy.StoreOne | dpdk_ring/rte_ring.h:232-258 | one object more is one slot more |
| RingCopy.CopyOutInverts | dpdk_ring/rte_ring.h:232-289 | a copy out at the same head gives back what was copied in |
| RingCopy.CopyInFrames | dpdk_ring/rte_ring.h:232-258 | a copy in disturbs no earlier entry that is still in the ring |
| RingQueue.MemsizeAccepts | dpdk_ring/rte_ring.c:23-35 | a count is accepted exactly if it is 0 or a power of two up to 2^30; the size covers header and slots in whole cache lines |
| RingQueue.Ring.Init | dpdk_ring/rte_ring.c:37-50 | the initial fields, flags included; an empty valid ring for a power of two |
| RingQueue.Ring.Create | dpdk_ring/rte_ring.c:53-71 | for which counts and with which memory there is a ring, and that count 0 gives one with capacity 2^32 - 1 and no slots |
| RingQueue.Ring.MoveProdHead | dpdk_ring/rte_ring_c11_mem.h:56-99 | for a caller alone: the exact free count, what each behaviour takes of it, the new head |
| RingQueue.Ring.MoveConsHead | dpdk_ring/rte_ring_c11_mem.h:124-164 | for a caller alone: the exact entry count, what each behaviour takes of it, the new head |
| RingQueue.Ring.DoEnqueue | dpdk_ring/rte_ring.h:324-345 | appends all objects if they fit, else with VARIABLE as many as fit and with FIXED none, and returns the space left, whatever the words are |
| RingQueue.Ring.DoDequeue | dpdk_ring/rte_ring.h:366-387 | takes from the front all objects asked for if they are there, else with VARIABLE all there are and with FIXED none, and returns how many remain |
| RingQueue.Ring.Count | dpdk_ring/rte_ring.h:669-676 | the masked difference of the tails is the number of entries |
| RingQueue.Ring.FreeCount | dpdk_ring/rte_ring.h:686-690 | the rest of the capacity |
| RingQueue.Appended | dpdk_ring/rte_ring.h:324-345 | storing at the producer word appends to what lies between the tails, across the wrap of both words and slots |
| RingQueue.Dropped | dpdk_ring/rte_ring.h:366-387 | moving the consumer word on drops from the front |
| RbTree.RbTree.LeftRotate | rbtree/main.cpp:57-77 | the new fields of every node involved and the root |
| RbTree.RbTree.RightRotate | rbtree/main.cpp:80-100 | the mirror image |
| RbTree.RbTree.RotateLeftAt | rbtree/main.cpp:57-77 | anywhere in the tree a left rotation turns the shape, keeps all links exact and the order of entries |
| RbTree.RbTree.RotateRightAt | rbtree/main.cpp:80-100 | the mirror image |
| RbTree.RbTree.RecolourRound | rbtree/main.cpp:107-112 | a red uncle: the one defect moves up two levels |
| RbTree.RbTree.RotateRoundInLeft | rbtree/main.cpp:113-123 | a black uncle on the right: the rotations mend the defect |
| RbTree.RbTree.RotateRoundInRight | rbtree/main.cpp:132-141 | the mirror image |
| RbTree.RbTree.InsertFixup | rbtree/main.cpp:102-147 | from a tree with one red-red edge at z the loop ends with a red-black tree with the same entries in order |
| RbTree.RbTree.Insert | rbtree/main.cpp:150-180 | a fresh key is added with its binding and nothing else, and the tree is valid; a key that exists changes nothing |
| RbTree.RbTree.DeleteRoundLeft | rbtree/main.cpp:185-214 | one round: done, or the shortage is nearer to the root, also after the rotation that pushes x down |
| RbTree.RbTree.DeleteRoundRight | rbtree/main.cpp:216-245 | the mirror image |
| RbTree.RbTree.DeleteFixup | rbtree/main.cpp:182-250 | from a tree that is one black node short at x, the sentinel included, the loop ends with a red-black tree with the same entries |
| RbTree.RbTree.SpliceAt | rbtree/main.cpp:263-276 | cutting out a node with at most one child leaves exact links; the sentinel may borrow the parent link |
| RbTree.RbTree.Victim | rbtree/main.cpp:257-261 | the node that is cut out is z or its successor, and has at most one child |
| RbTree.RbTree.Delete | rbtree/main.cpp:252-288 | removes exactly the binding of z, keeps every other one and all invariants, and returns a node that is no longer reachable |
| RbTree.RbTree.Mini | rbtree/main.cpp:28-33 | the leftmost node below x |
| RbTree.RbTree.Climb | rbtree/main.cpp:49-53 | upwards, the nearest node with a greater key |
| RbTree.RbTree.Successor | rbtree/main.cpp:42-54 | the node with the least greater key, or the sentinel exactly after the last |
| RbTree.RbTree.Locate | rbtree/main.cpp:290-303 | the search loop on any linked and ordered tree: the node bound to the key, or the sentinel exactly if the key is absent, in no more rounds than the tree is high |
| RbTree.RbTree.Search | rbtree/main.cpp:290-303 | the node with the key, or the sentinel exactly if no node has it, in at most 2 log2(n + 1) rounds |
| RbTree.RbTree.HeightBound | tree/b_tree/main.cpp:4-9 | a tree of n nodes is at most 2 log2(n + 1) high |
| RbRepair.LogHeight | tree/b_tree/main.cpp:4-9 | the same from the colour rules alone |
| RbRepair.BlackHeight | tree/b_tree/main.cpp:4-9 | height and size against the number of black nodes on a path |
| RbRepair.CutSelf | rbtree/main.cpp:257-276 | colours and order after a node with at most one child is cut out |
| RbRepair.CutNext | rbtree/main.cpp:257-281 | colours and order after the successor is cut out and its binding moved to z |
| FbWords.BitOfMask | dpdk_fbarray/eal_common_fbarray.h:263-270 | which bits the masks for start and end have |
| FbWords.CtzIs | dpdk_fbarray/eal_common_fbarray.h:294 | the count of trailing zeroes is the least set bit |
| FbWords.ClzIs | dpdk_fbarray/eal_common_fbarray.h:175-179 | the count of leading zeroes leaves the greatest set bit |
| FbMasks.MaskWordSees | dpdk_fbarray/eal_common_fbarray.h:272-286 | the masked word shows exactly the wanted entries of its stretch |
| FbMasks.SeesShifted | dpdk_fbarray/eal_common_fbarray.h:332-336 | a shift right drops exactly what lies before start |
| FbSearch.StartVisible | dpdk_fbarray/eal_common_fbarray.h:104-163 | the first mask lets through what lies from start on, or, joined with the mask for the end, all of the last, partial word |
| FbMasks.HoleSeen | dpdk_fbarray/eal_common_fbarray.h:338-356 | the first hole of a word ends its run |
| FbMasks.ShiftAnd | dpdk_fbarray/eal_common_fbarray.h:168-170 | one more and-with-itself-shifted asks for runs that are one longer |
| FbMasks.OneChanged | dpdk_fbarray/eal_common_fbarray.h:384-393 | changing one flag changes the count of flags by that flag |
| FbMasks.RunCounts | dpdk_fbarray/eal_common_fbarray.h:748-751 | a run of n needs n entries in that state among all |
| FbMasks.TooFew | dpdk_fbarray/eal_common_fbarray.h:748-776 | with fewer than n entries in the wanted state there is no run of n |
| FbMasks.NoneLeft | dpdk_fbarray/eal_common_fbarray.h:698-723 | a full, or empty, array has no free, or used, entry |
| FbArray.FbArray.Init | dpdk_fbarray/eal_common_fbarray.h:396-491 | which arguments and names are refused, with which error, and that nothing comes of a failed mapping; else an empty index whose mask covers the length |
| FbArray.FbArray.SetUsed | dpdk_fbarray/eal_common_fbarray.h:362-398 | exactly one entry takes the state, the count stays the number of set bits and the bits beyond the length stay zero; out of range changes nothing |
| FbArray.FbArray.IsUsed | dpdk_fbarray/eal_common_fbarray.h:658-683 | the state of an entry, or -1 out of range |
| FbArray.FbArray.FindNext | dpdk_fbarray/eal_common_fbarray.h:245-299 | the least wanted entry from start on, or -1 and the negated error exactly if there is none below the length |
| FbArray.FbArray.FindContig | dpdk_fbarray/eal_common_fbarray.h:301-360 | exactly the run from start, for every length |
| FbArray.FbArray.ShiftAnds | dpdk_fbarray/eal_common_fbarray.h:166-170 | the bits left are those where a run of that length starts inside the word |
| FbArray.FbArray.LookAhead | dpdk_fbarray/eal_common_fbarray.h:190-228 | whether the run fills the wanted length from the next word on, else exactly in which word it is lost, or that the words end |
| FbArray.FbArray.FindNextN | dpdk_fbarray/eal_common_fbarray.h:96-243 | it gives what `Finds` says; a result starts a run of n no earlier than start or start's partial last word; a run of any length is not passed over if neither of the two words before its own ends in an entry; from the last, partial word it is the least run of that word or -1; a search for one entry from elsewhere is find_next; nothing for n = 0; the negated error |
| FbSearch.Sound | dpdk_fbarray/eal_common_fbarray.h:165-241 | whatever way the loop took, an answer is a run, and no earlier than what the first mask lets through |
| FbSearch.NotPassed | dpdk_fbarray/eal_common_fbarray.h:165-241 | a run of any length that the masks let through is not passed over if neither of the two words before its own ends in an entry, whatever was lost further back |
| FbSearch.SearchedIs | dpdk_fbarray/eal_common_fbarray.h:96-243 | every answer of the loop is as `RunSearched` says |
| FbTheorems.HasAnswer | dpdk_fbarray/eal_common_fbarray.h:733-781 | every call has an answer |
| FbTheorems.OneOutcome | dpdk_fbarray/eal_common_fbarray.h:165-228 | each round of the loop has one outcome, but for what is ignored after a run is lost that needs all of the word it is lost in |
| FbTheorems.AfterLost | dpdk_fbarray/eal_common_fbarray.h:190-228 | from the entries alone: after a stretch that is too short the search goes on behind the word in which it ends, and ignores there as many entries as that word was to give; a run behind them is not passed over |
| FbTheorems.FarRun | dpdk_fbarray/eal_common_fbarray.h:190-237 | an array of 320 entries whose one answer for 70 used entries is 195, behind a run that is lost, though a run begins at 192 |
| FbTheorems.RangeIs | dpdk_fbarray/eal_common_fbarray.h:96-243 | for which start, n and length the run found ends by the length in every array: always for used entries, and for free ones exactly as `EndsInside` says |
| FbTheorems.Overrun | dpdk_fbarray/eal_common_fbarray.h:155-223 | for all others an array with enough free entries whose one answer is a run that ends beyond the length |
| FbTheorems.OverrunExample | dpdk_fbarray/eal_common_fbarray.h:190-228 | an empty array of 100 entries, a start of 50 and n = 60 |
| FbTheorems.PassedOver | dpdk_fbarray/eal_common_fbarray.h:213-223 | an array with a run of two free entries for which the only answer is -1 |
| FbTheorems.OneIsNext | dpdk_fbarray/eal_common_fbarray.h:96-299 | a search for one entry equals find_next always from a word before the last; from the last, partial word exactly if that word has no such entry before start and, for free ones, some from start on |
| FbTheorems.OneCallIsNext | dpdk_fbarray/eal_common_fbarray.h:685-781 | the same for the functions that look at the count first |
| FbTheorems.AlwaysNext | dpdk_fbarray/eal_common_fbarray.h:96-299 | for every array of a length both calls agree exactly from the starts before the last, partial word, from its beginning for used entries, and for free ones from there only if there is no other word |
| FbTheorems.LastWordIsLeast | dpdk_fbarray/eal_common_fbarray.h:139-182 | from the last, partial word, for every n: exactly when the result is the least run from start to the end, when it lies at or after start, and when it ends by the length |
| FbTheorems.OneIsNotNext | dpdk_fbarray/eal_common_fbarray.h:155-163 | two calls for which it does not: one finds an entry before start, the other one beyond the end of an array that is not full |
| FbArray.FbArray.FindNextFree | dpdk_fbarray/eal_common_fbarray.h:685-707 | find_next for free entries; the early -1 on a full array is right; which of the two errors is stored |
| FbArray.FbArray.FindNextUsed | dpdk_fbarray/eal_common_fbarray.h:709-731 | find_next for used entries; the early -1 on an empty array is right; which of the two errors is stored |
| FbArray.FbArray.FindNextNFree | dpdk_fbarray/eal_common_fbarray.h:733-756 | find_next_n for free entries and any n; the early -1 by the count means that no run of n exists; when the run ends by the length is `FbTheorems.RangeIs` |
| FbArray.FbArray.FindNextNUsed | dpdk_fbarray/eal_common_fbarray.h:758-781 | find_next_n for used entries and any n; the early -1 by the count means that no run of n exists |
| FbArray.FbArray.FindContigFree | dpdk_fbarray/eal_common_fbarray.h:783-810 | the free run from start, also by the shortcut for an empty array; -1 on a full one |
| FbArray.FbArray.FindContigUsed | dpdk_fbarray/eal_common_fbarray.h:812-829 | the used run from start |
| RwLock.MutualExclusion | dpdk_fbarray/rte_rwlock.h:60-124 | in every run of either lock the word is the number of readers, or -1 with one writer and no reader |
| RwLock.LockReader | vpn/com_lib/lock_lib/atomic_rwlock.h:11-24 | a won compare-and-set to one reader more keeps that |
| RwLock.UnlockWriter | vpn/com_lib/lock_lib/atomic_rwlock.h:45-48 | unlocking a writer keeps it, by increment and by storing 0 |
| RwLock.CallEnds | dpdk_fbarray/eal_common_fbarray.h:685-829 | every call that ends, in any run, has done what it was begun for: a search of either kind has its answer for memory as it is while the lock is held, an update has its own entry in its state and the count right |
| RwLock.ReaderEnters | dpdk_fbarray/rte_rwlock.h:60-77 | a reader comes in beside any number of readers: only a writer keeps it out |
| RwLock.WriterEnters | dpdk_fbarray/rte_rwlock.h:96-112 | a writer comes in when nobody is inside |
| RwLock.ReaderGoesOn | dpdk_fbarray/eal_common_fbarray.h:685-829 | a reader inside can always make its next step |
| RwLock.WriterGoesOn | dpdk_fbarray/eal_common_fbarray.h:362-398 | so can a writer |
| RwLock.HeldStill | dpdk_fbarray/rte_rwlock.h:60-87 | while a thread holds the read lock the mask and the count do not change |
| RwLock.SearchAnswers | dpdk_fbarray/eal_common_fbarray.h:685-731 | a search made word by word under the read lock answers find_next for the memory at the moment the lock was taken, despite concurrent updates |
| RwLock.AnySearchAnswers | dpdk_fbarray/eal_common_fbarray.h:685-829 | any search that loads one value after the other under the read lock gives the answer it gives on memory as it was when the lock was taken |
| RwLock.UpdateDone | dpdk_fbarray/eal_common_fbarray.h:378-395 | when a writer unlocks, its entry has the state, and the count is right again |
| RwLock.WriteTouchesOne | dpdk_fbarray/eal_common_fbarray.h:380-393 | no step changes the state of any entry but a writer's own |
| RwLock.RunKeeps | dpdk_fbarray/rte_rwlock.h:60-124 | the invariant of lock, mask, count and threads over every run |
| HugePages.CalcNumPagesPerSocket | dpdk_eal/mem.c:157-310 | it succeeds exactly if there is a page size and the memory is used up after some sockets, none of them with an amount of its own left short, and returns the pages chosen; without forced sockets it fails exactly if there is no page size or the request exceeds the total, and each socket is asked for the part that goes with its cores, as far as it has that much, and for more only if every socket before it is asked for all it has |
| HugePages.SplitIsUnique | dpdk_eal/mem.c:176-217 | with the sum of the shares that fixes the share of every socket |
| HugePages.CountCores | dpdk_eal/mem.c:180-184 | for each socket the number of its cores |
| HugePages.UsedUpWithin | dpdk_eal/mem.c:241-309 | if the shares do not exceed the memory, it is used up exactly if they amount to it and no socket is overdrawn |
| HugePages.SpreadByCores | dpdk_eal/mem.c:190-203 | each share is the socket's part of the request by its cores, or all its memory if that is less, and the remainder is what is left of the request |
| HugePages.SpreadRest | dpdk_eal/mem.c:205-217 | in the end the shares add up to the smaller of request and total; no share falls, and one rises only if every socket before it is asked for all it has |
| HugePages.ShareFits | dpdk_eal/mem.c:193-202 | the rounded shares given so far never add up to more than the request, so the remainder does not underflow |
| HugePages.TakePages | dpdk_eal/mem.c:241-285 | a share is met exactly if the socket has that much; in order each size gives all the whole pages that fit, and one page more only if the sizes that follow cannot give the rest; at most one page beyond the share |
| HugePages.OneWay | dpdk_eal/mem.c:243-285 | so the number of pages of every size is determined |
| HugePages.TakeWhole | dpdk_eal/mem.c:245-265 | after the whole pages that fit, what is left can be met by the sizes that follow, or one more page is at hand |
| HugePages.OneMore | dpdk_eal/mem.c:266-284 | the last page on top meets the share and exceeds it by less than that page |
| HugePages.ServeSockets | dpdk_eal/mem.c:241-309 | what all sockets together give, and when the call fails |
| ThreadPool.AcceptedIsStartedOrQueued | pools/thread_pool/ThreadPool.h:43-98 | over every run, the jobs that workers began to run, in order, followed by the queue are the jobs accepted: each is run once, in the order of acceptance |
| ThreadPool.StartIsNextAccepted | pools/thread_pool/ThreadPool.h:86-98 | a worker that begins to run a job runs the accepted job whose number is the number of jobs begun before, and no other worker begins one in that step |
| ThreadPool.RunsToItsEnd | pools/thread_pool/ThreadPool.h:94-97 | a worker keeps to its job until it is done |
| ThreadPool.RefusedExactlyWhenFull | pools/thread_pool/ThreadPool.h:43-56 | the queue keeps its limit, and enqueue refuses a job exactly when it is at the limit |
| ThreadPool.NobodySleepsOverWork | pools/thread_pool/ThreadPool.h:54-93 | while a worker sleeps there are no more jobs than workers awake plus notifications to come |
| ThreadPool.NoLostWakeup | pools/thread_pool/ThreadPool.h:54-88 | before shutdown a queued job means a worker awake or a notification to come |
| ThreadPool.AllStartedAtExit | pools/thread_pool/ThreadPool.h:88-93 | once a worker has left, every accepted job was started, if none was accepted after shutdown was called |
| ThreadPool.NoneWaitsAfterShutdown | pools/thread_pool/ThreadPool.h:58-66 | after shutdown and its notification no worker waits |
| ThreadPool.ShutdownProgress | pools/thread_pool/ThreadPool.h:58-98 | after shutdown each step of a worker lessens the work left |
| ThreadPool.WorkerGoesOn | pools/thread_pool/ThreadPool.h:82-97 | a worker that neither sleeps nor has left can make a step, and begins a job if one is queued |
| ThreadPool.ShutdownGoesOn | pools/thread_pool/ThreadPool.h:58-98 | a worker that has not left can always make a step then, so the joins return |
| ThreadPool.LostExactly | pools/thread_pool/ThreadPool.h:43-52 | when all workers have left, every accepted job was started exactly if none was accepted in a state in which all had left |
| ThreadPool.LeftForGood | pools/thread_pool/ThreadPool.h:43-56 | what is queued then stays queued |
| ThreadPool.LateJobIsLost | pools/thread_pool/ThreadPool.h:43-52 | a run in which an accepted job is never started |
| MemPool.MemPool.Create | vpn/com_lib/mem_lib/mem_pool.h:54-71 | which arguments are refused; else all blocks are free, for blocks of a pointer's size or more; for smaller ones what is left of the header |
| MemPool.MakePage | vpn/com_lib/mem_lib/mem_pool.h:29-52 | header and chain of a page lie in memory as they should, and nothing outside is touched; with smaller blocks where the page ends can be read, but of where it begins the lowest bytes are lost |
| MemPool.SmallBlocks | vpn/com_lib/mem_lib/mem_pool.h:50 | what the header of a page of blocks smaller than a pointer reads as after the last link |
| MemPool.HeaderSurvives | vpn/com_lib/mem_lib/mem_pool.h:39-50 | where such a page begins still reads back exactly if the bytes lost had been zero |
| MemPool.MemPool.Malloc | vpn/com_lib/mem_lib/mem_pool.h:89-108 | a block that nobody holds, or NULL exactly if none is free and no page is to be had; data of held blocks is kept |
| MemPool.MemPool.Grow | vpn/com_lib/mem_lib/mem_pool.h:94-103 | a new page brings its blocks and keeps everything else |
| MemPool.MemPool.Free | vpn/com_lib/mem_lib/mem_pool.h:110-140 | a held block goes to the front of the chain; a foreign or misaligned pointer changes nothing; a block that is free already is stored into again, and exactly then the pool is out of order; data of held blocks is kept |
| MemPool.DoubleFree | vpn/com_lib/mem_lib/mem_pool.h:122-127 | after a second free of a block the chain from it goes round over the blocks before it and never ends |
| MemPool.MemPool.FindPage | vpn/com_lib/mem_lib/mem_pool.h:114-133 | walking the page headers in memory finds out whether a pointer is a block |
| MemPool.MemPool.Destroy | vpn/com_lib/mem_lib/mem_pool.h:72-87 | every page is given back once, newest first |
| MemPool.MemPool.Write | vpn/com_lib/mem_lib/mem_pool.h:89-108 | a client may write any byte of a block it holds |
| MemPool.ClientWrites | vpn/com_lib/mem_lib/mem_pool.h:89-108 | such a write harms neither the chain nor a header |
| MemPool.ChainEnds | vpn/com_lib/mem_lib/mem_pool.h:104-106 | followed through memory from the free pointer the chain visits each free block once and ends |
| MemPool.TakeOk | vpn/com_lib/mem_lib/mem_pool.h:104-107 | taking the first free block keeps the pool in order |
| MemPool.ReturnOk | vpn/com_lib/mem_lib/mem_pool.h:122-127 | giving back a held block keeps the pool in order |
| MemPool.GrownOk | vpn/com_lib/mem_lib/mem_pool.h:94-103 | so does a new page in front |
| TailQueue.InsertHead | sys_queue/sys_queue.h:315-323 | the element is first, all forward and back links are exact |
| TailQueue.InsertTail | sys_queue/sys_queue.h:325-330 | the element is last |
| TailQueue.InsertAfter | sys_queue/sys_queue.h:332-340 | the element follows the given one |
| TailQueue.InsertBefore | sys_queue/sys_queue.h:342-347 | the element precedes the given one |
| TailQueue.Remove | sys_queue/sys_queue.h:349-356 | the sequence without that element |
| TailQueue.Concat | sys_queue/sys_queue.h:368-375 | the first queue is both sequences one after the other, the second is empty |
| TailQueue.Last | sys_queue/sys_queue.h:384-385 | the last element, or null exactly on an empty queue |
| TailQueue.Prev | sys_queue/sys_queue.h:386-387 | the element before, or null exactly at the first |
| TailQueue.Forwards | sys_queue/sys_queue.h:358-361 | the elements in order |
| TailQueue.Backwards | sys_queue/sys_queue.h:363-366 | the elements in the reverse order |
| SimpleQueue.InsertHead | sys_queue/sys_queue.h:156-160 | the element is first, the links and the address of the last cell are exact |
| SimpleQueue.InsertTail | sys_queue/sys_queue.h:162-166 | the element is last |
| SimpleQueue.InsertAfter | sys_queue/sys_queue.h:168-172 | the element follows the given one |
| SimpleQueue.RemoveHead | sys_queue/sys_queue.h:174-177 | the sequence without its first element |
| SimpleQueue.Remove | sys_queue/sys_queue.h:179-190 | the sequence without that element |
| SimpleQueue.Concat | sys_queue/sys_queue.h:197-203 | the first queue is both sequences one after the other, the second is empty |
| SimpleQueue.TaskQueue.Push | pools/thread_pool/thread_pool.cpp:42-60 | the task is last; without memory for it nothing changes |
| SimpleQueue.TaskQueue.Pop | pools/thread_pool/thread_pool.cpp:62-78 | the first task, or null exactly on an empty queue |
| SimpleQueue.TaskQueue.Destroy | pools/thread_pool/thread_pool.cpp:80-90 | every task left is freed once, in order |
| CircleQueue.InsertAfter | sys_queue/sys_queue.h:416-424 | the element follows the given one, and both directions of the ring are exact |
| CircleQueue.InsertBefore | sys_queue/sys_queue.h:426-434 | the element precedes the given one |
| CircleQueue.InsertHead | sys_queue/sys_queue.h:436-444 | the element is first |
| CircleQueue.InsertTail | sys_queue/sys_queue.h:446-454 | the element is last |
| CircleQueue.Remove | sys_queue/sys_queue.h:456-467 | the ring without that element |
| CircleQueue.LoopNext | sys_queue/sys_queue.h:488-491 | the next element going round |
| CircleQueue.LoopPrev | sys_queue/sys_queue.h:492-495 | the previous element going round |
| CircleQueue.Backwards | sys_queue/sys_queue.h:474-477 | the elements in the reverse order |

## Left out

- FbArray.FbArray.FindNextN: does not say that a run is found whenever there is one, because after a lost run the code skips the word it looked ahead to (`PassedOver`); what is not passed over is in `RunSearched` and `AfterLost`.
- HugePages.CalcNumPagesPerSocket: only the 64-bit branch; the directory names and the error messages are not modelled, and totals are unbounded numbers.
- MemPool.DoubleFree: what malloc hands out from a chain that goes round is not followed further.
- MemPool.MakePage: page sizes do not overflow an `int`, and what malloc gives lies within 2^64 addresses.
- RingQueue.Ring.DoEnqueue: the wait for the tail is over when a caller is alone; the wait itself is a guard of the step in `RingProtocol`.
- Weak memory ordering, lock elision and the `_tm` variants of the lock.
- The error numbers are results of the methods, not a global variable.
- `rbtree_maxi` and the printing traversal of the tree, which have easier twins in the model.
- The mapping, attaching and destroying of the file behind an array index, and its dump function.
- The rest of `dpdk_eal`: sysfs and /proc parsing, huge page directories, address translation.
- The worker wake-up of `pools/thread_pool/thread_pool.cpp`, which waits without looking at the queue again.
- `pools/mem_pool/mm_pool.h`, the plain binary search trees, SLIST and the accessor macros that only read one field.
- Sockets, epoll, the VPN client and server, logging, and everything else that is input and output.
