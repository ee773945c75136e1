# Verified models of the buddy allocator, the sleeping barber, and the hash table and event machine

This project models the three components of the repository that carry real state, and proves what they are for.

**Buddy allocator** (`buddy/`). `MPool.dfy` is the pool as the program has it: a header at each block's offset
(flag byte, size, client pointer) and one list of block offsets per size, changed in place by the search and split
loops of `mpool_alloc` and by the coalescing loop of `mpool_free`. Ghost state keeps a binary split tree. `Valid()` says
that headers and lists spell the tree out and that no two available blocks are buddies. What allocating and freeing
*mean* is defined on the tree, top-down and without loops (`BuddySpec.dfy`); the bottom-up loops are proved to
end in exactly that tree. The laws of the tree (tiling, canonical form, order independence, placement) are in
`BuddyTheorems.dfy`, the position bits and the buddy address in `BuddyBits.dfy`, the statistics loops in
`PoolStats.dfy`, and a client with a whole-run theorem, the epoch simulation of `test4.c`, in `Simulation.dfy`.

**Sleeping barber** (`pthreads/sleepbarber.c`). `Barber.dfy` is a step machine in which each program counter names the
source line about to run, for any number of customers and seats. An invariant over the three semaphores gives safety on
every interleaving; a measure bounds every run by 11 steps per customer; the stuck states are exactly the closed shop.

**Hash table and event machine** (`genstructs/htable/`, `fsm/`). `HashTable.dfy` refines a finite map through
incremental rehashing and carries the cost law; its methods are also proved to compute functions on the table as a value.
`HashIterator.dfy` is the table walk. `StateTable.dfy` holds a machine's states and transitions in such tables, so that
what a walk yields follows from how they were filled. `Fsm.dfy` has the priority queues, the event loop and the marking
pass, `Reachability.dfy` says what one pass and several passes compute, and `MarkingFails.dfy` has two machines on which
one pass is not enough.

## Where the code and its documentation differ

- `fsm.c:131-134` says that a marking pass leaves the flags "always in accordance with reality". It does so exactly
  when every state that any transitions reach from the states set is reached from the flagged ones, in the order in
  which the state table is walked, by transitions that the walks of the event tables yield (`Fsm.Fsm.SetState`,
  `Reachability.OnePassSuffices`). It fails on 1 -> 0 -> 2 started in state 1, where the order is wrong
  (`MarkingFails.OnePassMisses`), and on 1 -> 0, 1 -> 2, where two events share the last bucket and the walk skips one
  (`MarkingFails.SkippedEventMisses`).
- `htable_get_next_elm` is meant to visit every element. It leaves out the tail of the last bucket's chain, so it visits
  everything exactly when that chain has at most one node (`HashIterator.HIterator.WalkAll`). With two chains and the
  key as its own hash, keys 1 and 3 share the last chain and 3 is not visited (`HashIterator.WalkMisses`).
- `fsm_add_state` and `state_add_evt` report success when the hash table has no memory for the new node: only
  `HT_EXISTS` is checked (`fsm.c:79`, `states.c:70`). Nothing has been added then (`Fsm.Fsm.AddState`,
  `Fsm.Fsm.AddTransition`).
- `test4.c` asks for blocks of at least 2^5 bytes. `mpool_init` refuses that where a block header has 32 bytes
  or more. Where it does not, no allocation of the simulation ever fails (`Simulation.Simulate`).

## Assumptions

- Addresses are offsets from the start of the pool; `sizeof(blknode_t)` is a positive parameter `hsize`.
- Integers are unbounded: `1 << maxlogsize` fits in an `int`, and `blksize + sizeof(blknode_t)` does not wrap.
- A key comparison returns 0 exactly on equal keys; the hash function is any function of the key.
- A hash table's size is a power of two, as `htable.h:25` asks; `HashTable.Index` masks the hash bit by bit.
- Random choices, thread schedules and memory exhaustion (in `mpool_init`, the hash table, `fsm_add_state`,
  `state_add_evt` and `fsm_queue_event`) are arbitrary inputs.
- The keys of states and events are their own hashes, as in `fsm.c` (`fsm_hashf`) and `states.c` (`state_hashf`).

## Model

| member | source | states |
|---|---|---|
| BlockHeader.MarkAvail | buddy/mpool.h:29-30 | changes the availability bit and neither position bit, whatever else the flag byte holds |
| BlockHeader.MarkRight | buddy/mpool.h:31-32 | changes the LR bit and nothing else that is read |
| BlockHeader.MarkParent | buddy/mpool.h:33-34 | changes the PARENT bit and nothing else that is read |
| BlockHeader.BlockInit | buddy/mpool.h:48-71 | the header describes the given block however the memory was filled before |
| BuddyTree.LeafRange | buddy/mpool.c:185-201 | every block lies in the pool and is one of the regions that halving produces |
| BuddyTree.GraftAt | buddy/mpool.c:167-203 | replacing a region changes the blocks that start inside it and no other |
| BuddyBits.SplitPosition | buddy/mpool.c:176-201 | a split gives both halves bits from which a merge gets back the bits of the parent |
| BuddyBits.BuddyRegion | buddy/mpool.c:260-270 | block and buddy differ in their LR bit and together are their parent region |
| BuddyBits.BuddyAddressSound | buddy/mpool.c:260-279 | the buddy's address is in the pool and starts a block no larger than the block itself, equal in size exactly when the buddy is unsplit |
| BuddyBits.RegionIsAligned | buddy/mpool.c:185-201 | the regions that halving produces are, for a given size, exactly the aligned ranges of that size in the pool |
| BuddyBits.PositionFromOffset | buddy/mpool.c:176-201 | the inherited LR and PARENT bits are those read off the block's offset and size |
| BuddySpec.FreeKeepsCanonical | buddy/mpool.c:281-357 | freeing leaves no two available buddies |
| BuddySpec.FreeUsed | buddy/mpool.c:248-357 | freeing takes the freed block, and no other, out of the used blocks |
| BuddySpec.FreeAvailable | buddy/mpool.c:250-291 | freeing an available block changes nothing |
| BuddySpec.MergeStep | buddy/mpool.c:292-356 | merging a block with its available buddy first leads to the same end state |
| BuddySpec.StopStep | buddy/mpool.c:277-291 | when the buddy is not available in one piece, only the block itself becomes available |
| BuddySpec.TargetIsLeast | buddy/mpool.c:143-155 | the size at which splitting stops is the least one, not below the minimum, that holds the request |
| BuddySpec.TargetThreshold | buddy/mpool.c:117-155 | the block sizes that hold a request are those from that size on |
| BuddySpec.AllocUsed | buddy/mpool.c:137-206 | allocating adds the granted block, and no other, to the used blocks |
| BuddySpec.AllocThenFree | buddy/mpool.c:137-206 | on the tree, freeing undoes an allocation of any depth of splitting |
| BuddyTheorems.EveryByteCovered | buddy/mpool.c:67-80 | every byte of the pool is in a block |
| BuddyTheorems.BlocksDisjoint | buddy/mpool.c:190-203 | different blocks never overlap |
| BuddyTheorems.NothingUsed | buddy/mpool.c:281-357 | with nothing in use the pool is one available block |
| BuddyTheorems.UsedDetermineTree | buddy/mpool.c:248-357 | the used blocks alone determine all blocks, sizes and availabilities |
| BuddyTheorems.SplitIffUsedInside | buddy/mpool.c:137-206 | a region is split exactly when it strictly contains a used block |
| BuddyTheorems.FreeOrderIrrelevant | buddy/mpool.c:248-357 | freeing the same live blocks in any two orders gives the same pool |
| BuddyTheorems.FreeEverything | buddy/mpool.c:248-357 | freeing all live blocks in any order gives one available block |
| BuddyTheorems.PlacementComplete | buddy/mpool.c:107-133 | some available block is large enough exactly when some aligned range of the wanted size meets no used block |
| BuddyTheorems.RoomForOneMore | buddy/mpool.c:107-133 | wherever the used blocks are, fewer than 2^(k-c) of them, none above 2^c, leave a block of 2^c or more available |
| PoolState.SplitKeeps | buddy/mpool.c:167-203 | the header and list updates of a split lead from a represented tree to the represented tree with the block halved and one block more |
| PoolState.MergeKeeps | buddy/mpool.c:301-352 | the header and list updates of a merge lead to the represented tree with the two buddies joined and one block fewer, and leave the tree that freeing ends in as it was |
| PoolState.MarkKeeps | buddy/mpool.c:277-291 | changing the availability bit of one header leads to the represented tree with that block marked; lists stay as they are |
| MemoryPool.MPool.constructor | buddy/mpool.c:32-80 | a new pool is valid and is one available block, with no splits and no merges |
| MemoryPool.MPool.Init | buddy/mpool.c:17-84 | which arguments are refused and with which code, MPOOL_ENOMEM when memory is short, and otherwise a fresh valid pool |
| MemoryPool.MPool.Search | buddy/mpool.c:107-133 | the list walk ends at a smallest available block that fits, the first such in its list |
| MemoryPool.MPool.Split | buddy/mpool.c:162-204 | one turn of the split loop halves the block in tree, headers and lists, puts the right half and then the left at the head of the next list, and counts one split |
| MemoryPool.MPool.SplitDown | buddy/mpool.c:137-206 | the split loop stops at the wanted size and leaves the carved tree and the stated lists |
| MemoryPool.MPool.Alloc | buddy/mpool.c:86-208 | fails exactly when no aligned range of the wanted size is unused; otherwise grants a block of exactly that size from a smallest fitting block, the first available one in its list; in every list what stays keeps its order and what is new stands ahead of it, the last right half ahead of the granted block |
| MemoryPool.MPool.FindBuddy | buddy/mpool.c:259-275 | computes the buddy's address by arithmetic; both "out of pool" exits are unreachable |
| MemoryPool.MPool.MergeHeader | buddy/mpool.c:308-347 | rebuilds the merged header from the two buddies; the "wrong LR relation" exit is unreachable |
| MemoryPool.MPool.Merge | buddy/mpool.c:292-352 | one turn of the coalescing loop: two buddies become their parent in tree, headers and lists, the parent at the head of its list |
| MemoryPool.MPool.Turn | buddy/mpool.c:257-356 | one turn of the loop: it either stops with the freed tree or merges and goes on with a larger block |
| MemoryPool.MPool.Coalesce | buddy/mpool.c:248-359 | the loop ends in the freed tree, with one merge counted for each block fewer; in every list what stays keeps its order and the merged block stands ahead of it |
| MemoryPool.MPool.Free | buddy/mpool.c:244-359 | freeing by pointer subtraction gives the freed tree, with the same order of the lists |
| MemoryPool.MPool.FreeByLookup | buddy/mpool.c:218-243 | for any pointer at all: unknown pointers and available blocks are ignored, live blocks are freed |
| MemoryPool.MPool.Lookup | buddy/mpool.c:222-243 | the scan finds the block that owns the pointer exactly when there is one |
| MemoryPool.AllocOrder | buddy/mpool.c:167-203 | whatever the number of splits, every list keeps the order of what stays, and halves stand at its head |
| MemoryPool.FreeOrder | buddy/mpool.c:301-352 | whatever the number of merges, every list keeps the order of what stays, and the merged block stands at its head |
| PoolTheorems.GrantThenFree | buddy/mpool.c:137-357 | freeing a granted block restores the tree with one merge per split |
| PoolTheorems.AllocFree | buddy/mpool.c:86-359 | allocate then free: same blocks and same header fields as before, merges rise by what splits rose by |
| PoolTheorems.FreeEach | buddy/test3.c:64-67 | freeing live blocks one by one is independent of the order, and freeing all of them ends with one block and as many merges as splits |
| PoolTheorems.UsedBlocksDetermineState | buddy/mpool.c:248-357 | two pools with the same used blocks have the same blocks, headers and list contents |
| PoolTheorems.HeaderBits | buddy/mpool.c:176-201 | in every valid pool each header's size is in range, its block is aligned, and its bits are functions of offset and size |
| PoolTheorems.PayloadIsolated | buddy/mpool.c:101-206 | the client bytes of a granted block stay inside it and meet no other block or header |
| PoolTheorems.InternalFragmentation | buddy/mpool.c:95-101 | a granted block is less than twice the size needed unless it has the minimum size |
| PoolStats.WeighConserves | buddy/mstat.c:4-40 | available and used blocks are all blocks, available and used bytes are all bytes |
| PoolStats.ListsWeighTree | buddy/mstat.c:12-20 | adding up over the lists is adding up over the blocks of the tree |
| PoolStats.NodesAre | buddy/mstat.c:12-20 | the two counts are the lengths of any lists that name the available and the used blocks once each |
| PoolStats.BytesAre | buddy/mstat.c:31-39 | the two sums are those of the sizes of the blocks so named |
| PoolStats.GetNodes | buddy/mstat.c:4-21 | the numbers of available and of used blocks; together one more than splits less merges |
| PoolStats.GetBytes | buddy/mstat.c:23-40 | the sizes of the available and of the used blocks added up; together the whole pool |
| Simulation.InsertSorted | buddy/test4.c:118-134 | the expiry list stays sorted and gains exactly the new node |
| Simulation.LifetimesDrawn | buddy/test4.c:78-81 | the draws run through all lifetimes from 1 to the maximum, or to the end of the simulation if that is nearer, in order and over again |
| Simulation.SizesDrawn | buddy/test4.c:77 | the sizes drawn are 1, 2, 4, 8, 16 and 32 bytes, one per residue of the draw |
| Simulation.Sim.AddToList | buddy/test4.c:108-135 | the list walk inserts behind every node that is due no later and ahead of the rest |
| Simulation.Sim.FreeFromList | buddy/test4.c:137-156 | frees exactly the leading nodes that are due in this epoch |
| Simulation.Sim.FreeDue | buddy/test4.c:69-70 | afterwards no listed node is due or overdue |
| Simulation.FewListed | buddy/test4.c:81-84 | fewer blocks are live in an epoch than the maximum lifetime |
| Simulation.RoomForChoice | buddy/test4.c:72-93 | with fewer live blocks than regions of the largest size there is room for any draw |
| Simulation.Sim.AllocOne | buddy/test4.c:72-93 | the list gains just the new node, with a block of the size drawn and due when drawn; it fails only without room for that size, and never in a pool of `m` regions of the largest size |
| Simulation.Sim.Run | buddy/test4.c:63-97 | either every epoch's block is freed once and when due and the pool ends as one available block, or in some epoch there is no room for the size drawn and all epochs before it are accounted for; only the former in a pool of `m` regions of the largest size |
| Simulation.Simulate | buddy/test4.c:34-106 | refused exactly when a header has 32 bytes or more, MPOOL_ENOMEM exactly when memory is short, and otherwise, for lifetimes up to 2^19 (the program has 1000), the simulation always comes to its end |
| Barber.StepInv | pthreads/sleepbarber.c:54-80 | every step of every thread keeps mutual exclusion, the two balances of seats and calls, the seat held for a called customer, fair refusal, and no free seat while somebody leaves unserved |
| Barber.SeatsInRange | pthreads/sleepbarber.c:54-80 | after any run the free seats are between 0 and all seats, customers seated but not yet called are no more than the seats, and at most one thread is between the seat semaphore's wait and post |
| Barber.RefusedOnlyWhenFull | pthreads/sleepbarber.c:69-77 | in every run a customer is turned away only while no seat is free, and sits down only while one is |
| Barber.StepProgress | pthreads/sleepbarber.c:50-81 | every step brings the run closer to its end |
| Barber.EveryRunIsShort | pthreads/sleepbarber.c:50-81 | no interleaving of n customers and the barber has more than 11n steps |
| Barber.StuckIffClosed | pthreads/sleepbarber.c:50-81 | a reachable state is stuck exactly when the barber waits for customers, all have left, all seats are free, and the semaphores are as at the start |
| Barber.NobodyLost | pthreads/sleepbarber.c:65-81 | at the end everyone was served or refused, and as many as there are seats were served |
| Barber.Shop.BarberLine | pthreads/sleepbarber.c:50-63 | executes one line of the barber's loop |
| Barber.Shop.CustomerLine | pthreads/sleepbarber.c:65-81 | executes one line of a customer |
| Barber.Shop.Run | pthreads/sleepbarber.c:35-45 | any scheduling whatever ends, and ends closed |
| Barber.Day | pthreads/sleepbarber.c:24-48 | the same from the program's initial state |
| HashTable.IndexAfterGrow | genstructs/htable/htable.c:130-132 | doubling the table sends each chain to the chain of the same index or that index plus the old size |
| HashTable.FilterLookup | genstructs/htable/htable.c:127-134 | searching a key in the filtered chain finds what the old chain had |
| HashTable.FilterOrder | genstructs/htable/htable.c:127-134 | entries of a chain keep their order when the table is doubled |
| HashTable.RehashRefines | genstructs/htable/htable.c:122-134 | the filtered chains hold the same map, no key lost or doubled |
| HashTable.AppendRefines | genstructs/htable/htable.c:165-168 | appending a new key to its chain adds it to the map |
| HashTable.RemoveRefines | genstructs/htable/htable.c:195-201 | unlinking an entry takes its key out of the map and leaves the others |
| HashTable.InsertedRefines | genstructs/htable/htable.c:147-179 | inserting into a table value, growth included, is inserting into the map, the first insert winning |
| HashTable.FoundIsMap | genstructs/htable/htable.c:207-222 | searching a table value finds what the map holds, whatever the order within the chains |
| HashTable.HTable.constructor | genstructs/htable/htable.c:7-36 | a new table is the empty map |
| HashTable.HTable.Search | genstructs/htable/htable.c:207-222 | finds the data the map holds for the key, if any, by the search on table values |
| HashTable.HTable.Rehash | genstructs/htable/htable.c:112-134 | each new chain is the order-preserving filter of the chain it came from, and every node is moved once |
| HashTable.HTable.Grow | genstructs/htable/htable.c:102-145 | same map in twice as many chains, each the filter of an old one, or nothing changed when memory is short |
| HashTable.HTable.Insert | genstructs/htable/htable.c:147-179 | the first insert of a key wins; return codes; the whole new table, the entry at the tail of its chain and grown or not; at what cost |
| HashTable.HTable.Remove | genstructs/htable/htable.c:181-205 | removes the key from the map by taking its one entry out of its chain, everything else staying in place; return codes |
| HashTable.Run | genstructs/htable/htable.c:102-222 | any run of operations answers as the finite map does; with growth from inserts only, n inserts cause at most 3n node moves |
| HashTable.RunAnswers | genstructs/htable/htable.c:147-222 | each answer of a run, by what the map held before the operation |
| HashTable.RunHistory | genstructs/htable/htable.c:147-222 | the map holds under a key what the last insert that found it absent stored, unless the key was removed since |
| HashIterator.WalkedEntries | genstructs/htable/htable.c:278-317 | the walk sees entries of the map only, none twice, and all of them exactly under that condition |
| HashIterator.WalkStep | genstructs/htable/htable.c:278-317 | from any position each step extends what was visited by exactly the next node of the order stated, and the walk ends only at its end |
| HashIterator.WalkFails | genstructs/htable/htable.c:278-317 | a well-formed table with two entries of which the walk sees one |
| HashIterator.WalkMisses | genstructs/htable/htable.c:278-317 | the iterator run on such a table, built by two inserts, does not see all its entries |
| HashIterator.HIterator.GetNextElm | genstructs/htable/htable.c:278-317 | next in the chain, or the head of the next non-empty bucket, or nothing once the position is past the last bucket |
| HashIterator.HIterator.Advance | fsm/fsm.c:321-323 | one test of the callers' loop condition adds exactly the next entry of the whole walk, or ends having seen all of it |
| HashIterator.HIterator.WalkAll | fsm/fsm.c:321-323 | the callers' loop ends and visits all chains in order, of the last one only the head |
| Reachability.PassSound | fsm/fsm.c:326-334 | one marking pass flags only reachable states |
| Reachability.PassExact | fsm/fsm.c:320-335 | one pass flags exactly what is reachable through states in the order they are walked |
| Reachability.OnePassSuffices | fsm/fsm.c:131-134 | exactly when one pass over some of the transitions flags all that the whole graph reaches from the states set |
| Reachability.OnePassFails | fsm/fsm.c:131-134 | transitions 1 -> 0 -> 2, walked in the order 0, 1, 2 from state 1: one pass does not flag state 2 |
| Reachability.SkippedFails | fsm/fsm.c:131-134 | transitions 1 -> 0 and 1 -> 2 of which the second is not walked: state 2 is not flagged, though the order is right |
| Reachability.PassesReachDepth | fsm/fsm.c:313-336 | after d passes every state within d transitions is flagged |
| Reachability.EnoughPasses | fsm/fsm.c:313-336 | as many passes as there are states flag exactly the reachable ones |
| StateTables.AddEvtHolds | fsm/states.c:45-76 | adds a transition for a new event key unless memory is short, with each return code |
| StateTables.EdgesAre | fsm/fsm.c:330-334 | one state leads to another exactly by a transition that is there, and is walked exactly by one that the walk yields |
| StateTables.WalksFit | genstructs/htable/htable.c:278-317 | walks of a machine's tables yield only its states and transitions, and all of them exactly when no last bucket has two nodes |
| Fsm.ServeOrderStable | fsm/fsm.c:195-215 | the serving order is by descending priority and first come first served within one |
| Fsm.ProcessMeaning | fsm/fsm.c:238-259 | the machine moves exactly when its state has the event with a registered target, and then to that target; the action runs with the event's data whatever the target |
| Fsm.ProcessAllMeaning | fsm/fsm.c:189-259 | a sequence of events has these effects one after the other |
| Fsm.Fsm.constructor | fsm/fsm.c:19-68 | a new machine has no states, no flags and no events, for any number of queues, none included |
| Fsm.Fsm.AddState | fsm/fsm.c:70-83 | registers a state once, or not at all when memory is short; tables stay exact and flags justified |
| Fsm.Fsm.AddTransition | fsm/states.c:45-76 | adds a transition to a registered state for a new event key, with each return code; tables stay exact and flags justified |
| Fsm.Fsm.MarkReachable | fsm/fsm.c:313-336 | the nested iterator loops compute one pass over what the walks yield; the flags are right afterwards exactly under the condition of `Reachability.OnePassSuffices` |
| Fsm.Fsm.MarkTimes | fsm/fsm.c:313-336 | when no last bucket is long: after d passes everything within d transitions of a state passed to `fsm_set_state` is flagged, and as many passes as states flag exactly what is reachable from those states |
| Fsm.Fsm.SetState | fsm/fsm.c:120-143 | sets a registered state, flags it and makes one pass; the exact condition under which the flags then are "in accordance with reality" |
| MarkingFails.OnePassMisses | fsm/fsm.c:120-143 | a machine, built by inserts and with complete walks, on which `fsm_set_state` leaves a reachable state unflagged |
| MarkingFails.SkippedEventMisses | fsm/fsm.c:330-334 | one, built by inserts, on which it does so because an event table's walk skips a transition, though the walk order alone would do |
| Fsm.Fsm.QueueEvent | fsm/fsm.c:150-188 | return codes; the event goes to the tail of its priority's queue and no other queue changes |
| Fsm.Fsm.ProcessEvent | fsm/fsm.c:238-259 | FSM_OK exactly when the current state has the event with a registered target, which becomes the current state; the log grows by the action, whatever the target |
| Fsm.Fsm.DequeueEvent | fsm/fsm.c:189-218 | serves and removes the first event in serving order, handled or not, or reports empty |
| Fsm.Fsm.GetQueuedEvents | fsm/fsm.c:220-236 | the number of events still to be served |
| Fsm.Fsm.Drain | fsm/fsm.c:189-218 | dequeuing until empty processes every pending event once, in serving order, each with the stated effect on state and log |
| Fsm.Fsm.QueueAndDrain | fsm/fsm.c:150-218 | whatever arrives is served by descending priority and in order of arrival within a priority |

## Left out

- Machine integers in `mpool.c`: shifts of 31 and more and wrap-around of `blksize + sizeof *pnode`.
- The bytes of a header: a header is one cell at its block's offset; that no client byte and no other header overlaps it
  is `PoolTheorems.PayloadIsolated`.
- Linked-list pointers: a `LIST`, `TAILQ` or `STAILQ` is the sequence of its elements.
- HashTable.Index: an unbounded hash, so the truncation of a hash to `size_t` is not modelled.
- Fsm.Fsm.SetState: requires that a state flagged by its turn in the pass has no NULL target among its walked transitions,
  because the pass then dereferences it.
- Fsm.Fsm.AddState: the tables of a machine are values, updated by the functions that `HTable.Insert` and `HTable.Search`
  are proved to compute; that two states could share one event table object is not modelled.
- Fsm.Fsm.DequeueEvent: requires at least one queue; with none the source's loop index would start at -1, unsigned.
- A state added to a machine twice under different keys, which would overwrite a stored key in place (`fsm.c:76`), and
  removal of states and transitions.
- Actions that queue events while an event is processed, and races on the event queues: every call is one step.
- Barber.Day: thread creation and the output of the threads; the barber's loop has no end, so the program waits for it forever.
- Failure of `malloc` in `htable_init` and `fsm_init`, and all freeing of whole structures.
- `mpool_stat_get_blocks`, `mpool_stat_get_block_length`, `htable_free_obj`, `htable_traverse`: easy members beside the ones modelled.
- Printing, the export to dot, and `fsm_minimize`, which does nothing yet.
- cdev, fileops, ipc, kqueue, proplib, termios, atf, homework, the other threads programs and list demos.
