# Verified model of the Spoon microkernel's allocators, queues, scheduler and lock

This project models, in Dafny, the data-structure core of the Spoon microkernel and three of its
user-level services, and proves what that code keeps in every state, over every run and for every
input. Nothing here executes the kernel: the model follows the C code branch by branch, and every
claim is a Dafny contract.

| file | models |
|---|---|
| `Bits`, `Arith`, `Seqs` | `highbit`, unit arithmetic, list and array edits shared by all |
| `ArbGeometry`, `ArbViews`, `ArbSteps`, `ArbRaw`, `Arb` | the boundary-tag range allocator `arb` |
| `KmemCache` | the slab and stack object cache |
| `LibAllocBlocks`, `LibAlloc` | `malloc`/`free` over page blocks |
| `SchedulerState`, `Scheduler` | run queue, timer queue, fast ring and thread states of one CPU |
| `RwLock`, `RwLockProgress`, `RwLockRequests` | the reader-writer lock, as interleaved steps of any number of threads: safety, exact counting, absence of deadlock, and the write request over whole runs |
| `HashTable`, `PagedQueue` | the hash table and the paged queue |
| `Ports`, `Messages` | port ownership and message passing |
| `FrameSearch`, `Paging` | the search for physical frames, page tables and the regions of processes that share them |
| `Desktop` | the desktop compositor |
| `DevFsRequests`, `DevFs` | descriptors, device hooks and request routing of the device file system |

How it is built. Objects that the source changes in place are classes whose fields are the source's
fields; a linked list is a `seq` in list order, a record reached by pointer is named by an
identifier, and a fixed buffer is an `array`. Each module has a value-level invariant, lemmas saying
that every step keeps it, and class methods whose contracts tie the new state to the old one.
Allocation hooks, clocks and message delivery are parameters (`mem`, `now`, `delivered`, ...).
Code inside a spinlock is one step, except in `RwLock`, where each access to a shared word is a step.

Reading guide for the main invariants:

* `ArbSteps.Agree`: tags are in address order and tile every span exactly; each free list holds exactly
  the free tags of its size class, once, with `fl_indicator` agreeing; no two free tags of one span
  touch; the lookup table holds exactly the allocated tags at their start; `admin_usage` is the sum of
  the allocated sizes. `Allocator.Valid()` is `Agree` with no tag off the lists and no open seam, so
  every state reached by add, alloc, reserve and free has all of it.
* `LibAlloc.Heap.Valid()`: minors are in order, disjoint and inside their block, `usage`, `l_inuse` and
  `l_allocated` are the true sums, no block is empty, the best bet is in the list or null.
* `KmemCache.Cache.Valid()`: every object of every slab is either live or on exactly one stack, once.
* `SchedulerState.Inv`/`AtTop`: the run queue is exactly the running threads, the timer queue is sorted
  and holds exactly the sleeping threads, the cursor is in range.
* `DevFs.Inv`: the next descriptor of a process is not open, and the hooks of each openable device are
  exactly the (process, descriptor) pairs open on it.

## Where the code does not do what it is for

Each of these is proved in two parts: a run or state in which the code fails, and the exact condition
under which it does not.

* `arb_reserve` does not test that the covering tag is free or that the range starts on a unit, and its
  sum wraps near 4 GB. Runs: `Arb.ReserveTwice`, `Arb.ReserveWraps`. Condition: the views go on agreeing if
  and only if nothing wraps and a free tag covers the range on a unit boundary (`Arb.Allocator.Reserve`,
  `Arb.CoveringTagDecides`).
* The rounding in `arb_alloc` wraps near 4 GB, and the code then cuts a tag smaller than a unit off the first
  free tag. If some span holds its address it is handed out and takes over the lookup slot there; if none
  does, a NULL pointer is used. Run: `Arb.FourGigabytes`, where a live page is handed out again. Condition:
  the rounded size fits in 32 bits (`Arb.Allocator.Alloc`, `ArbGeometry.Round32Exact`, `ArbGeometry.Round32Zero`).
* The sizes in `malloc` wrap near 4 GB at three places. Run: `LibAlloc.FourGigabytes`. Condition: the
  region returned lies in a block of the heap if and only if the request and 54 bytes stay below 4 GB
  (`LibAlloc.Heap.Malloc`, with `SizeExact`, `NeedExact` and `PagesExact` for the single tests).
* `free` trusts the 16 bits below the pointer, so it also frees through pointers that `malloc` never
  returned, such as the address just behind a header. State: `LibAlloc.HeaderEndFrees`. Condition:
  `LibAlloc.FreedPointerIsOwn`.
* `aqueue_get` looks at the first page even when it has been read to its end, so that a peek can show a
  message that was received before. Run, for every page size: `PagedQueue.PeekShowsStale`. Condition:
  `PagedQueue.PeekMatchesRead`.
* A staged queue slot that is dropped after it added a page makes a later run read an old object. Run, for
  every page size, and condition: `PagedQueue.GrownBetrays`, `PagedQueue.DiscardUnnoticedIff`.
* `num_readers += 1` is a load and a store. A writer is still always alone (`RwLock.TornRunSafe`), but a
  store that overlooks a release leaves the count too high for ever. Run:
  `RwLock.TornIncrementLosesRelease`, then `RwLock.WedgedForever`. Conditions, for every run of the code as
  written: the counters are exact if and only if no store overlooked a release
  (`RwLockProgress.CountsExactIff`), the lock is wedged if and only if one did (`RwLockProgress.WedgedIff`),
  and a waiting writer can still enter if and only if none did and no loaded count has gone stale
  (`RwLockProgress.WriterEntersIff`).
* A thread that leaves the run queue takes the cursor back by one, modulo the new length, in unsigned
  arithmetic. When the last thread of the queue leaves after its turn the cursor is 0 and wraps, and the
  thread that was next can be passed over. Run: `SchedulerState.CursorPassesOver`. Condition: the thread
  that was next stays next if and only if the one that left was not last, or 2^32 - 1 is a multiple of the
  new length (`SchedulerState.NextStaysNextIff`).
* The search for physical frames jumps over the end of the map and can pass over a free run. State:
  `FrameSearch.RunMissed`. Condition: a free run is passed over if and only if it starts before the last
  grant and below the position at which the search resumes (`Paging.PhysMem.Alloc`); with the first
  megabyte taken, none is for requests of up to 258 pages (`FrameSearch.NothingMissed`).
* `drop_message` without a hint looks at the first unmasked port only. Run: `Messages.DropMisses`.
  Condition: it drops a message if and only if that port has one (`Messages.Process.Drop`).
* A failed open of a device without `DEVFS_FLAG_OPEN` leaves a hook that is never released, so that the
  device can never be deregistered. Run: `DevFs.LeakHappens`, then `DevFs.LeakedHookIsForever`. Condition:
  `DevFs.FailedOpenKeepsHooks`.
* When a request cannot be delivered, devfs answers with the requester's own port number as the status:
  never an error, and success if and only if the port is 0. Run: `DevFs.LostRequest`. Condition:
  `DevFs.Server.Dispatch`.

## Model

| member | source | states |
|---|---|---|
| `Bits.HighBitMonotone` | kernel/src/arb/arb.c:38-51 | larger values have no lower high bit, which is what makes a higher list safe to take from |
| `ArbGeometry.Round32Exact` | kernel/src/arb/arb.c:626-631 | 32-bit rounding equals true rounding if and only if the true result fits in 32 bits |
| `ArbGeometry.Round32Zero` | kernel/src/arb/arb.c:626-631 | when the unit divides 4 GB, rounding gives 0 for exactly the requests within a unit of 4 GB |
| `ArbGeometry.ReserveSumExact` | kernel/src/arb/arb.c:568-568 | the comparison of reserve agrees with the true one on every tag if and only if position plus size does not wrap |
| `ArbGeometry.SplitKeepsGeometry` | kernel/src/arb/arb.c:500-538 | cutting a tag in two keeps the tags ordered and tiling every span |
| `ArbGeometry.MergeKeepsGeometry` | kernel/src/arb/arb.c:702-750 | joining two neighbours of one span keeps the tags ordered and tiling every span |
| `ArbGeometry.NeighboursTouch` | kernel/src/arb/arb.c:702-750 | neighbours on the list that lie in one span touch, so melting them loses no address |
| `ArbViews.UnlinkAgrees` | kernel/src/arb/arb.c:90-121 | taking a tag off its free list keeps all lists exact and its indicator cleared |
| `ArbViews.LinkAgrees` | kernel/src/arb/arb.c:57-87 | putting a free tag on the list of its size class keeps all lists exact |
| `ArbViews.HigherListFits` | kernel/src/arb/arb.c:437-453 | every tag on a list above the request's own holds the request |
| `ArbSteps.SplitStep` | kernel/src/arb/arb.c:500-538 | a split keeps all views in agreement, opens one seam and changes no live range |
| `ArbSteps.BusyStep` | kernel/src/arb/arb.c:666-679 | marking a tag allocated closes its seams, records it in the lookup table and adds exactly its range to the live ones |
| `ArbSteps.FreeStep` | kernel/src/arb/arb.c:683-700 | releasing a tag removes exactly its range from the live ones and may leave free neighbours only at its two ends |
| `ArbSteps.MeltStep` | kernel/src/arb/arb.c:702-750 | melting two free neighbours closes the seam between them and keeps all views in agreement |
| `ArbSteps.LeftSeamClosed` | kernel/src/arb/arb.c:704-725 | where the code does not melt to the left there is nothing to melt |
| `ArbSteps.RightSeamClosed` | kernel/src/arb/arb.c:729-750 | where the code does not melt to the right there is nothing to melt |
| `ArbSteps.AddStep` | kernel/src/arb/arb.c:298-422 | a new span with its one free tag keeps all views in agreement |
| `ArbRaw.SplitRaw` | kernel/src/arb/arb.c:500-538 | a split of any tag, allocated or not, keeps the list in order; what is cut off an allocated tag is no longer in use |
| `ArbRaw.MarkRaw` | kernel/src/arb/arb.c:611-619 | marking an allocated tag again adds nothing to what is in use, while `admin_usage` grows |
| `ArbRaw.SmallTagDisagrees` | kernel/src/arb/arb.c:656-679 | no state with a tag smaller than a unit has its views in agreement |
| `ArbRaw.OddTagDisagrees` | kernel/src/arb/arb.c:590-600 | nor has one with a tag that starts between two units |
| `ArbRaw.OddSizeDisagrees` | kernel/src/arb/arb.c:581-600 | nor has one with a tag of an odd size or past the address space |
| `ArbRaw.CutPosition` | kernel/src/arb/arb.c:590-600 | whatever wrapped, the second cut starts at the position that was asked for |
| `Arb.LiveDisjoint` | kernel/src/arb/arb.c:623-680 | two live allocations never overlap, in every state where the views agree |
| `Arb.FreeSpaceIsClear` | kernel/src/arb/arb.c:541-620 | space in a free tag meets no live allocation |
| `Arb.CoveringTagDecides` | kernel/src/arb/arb.c:568-578 | the range handed out by reserve is clear of live allocations if and only if the covering tag is free |
| `Arb.ReserveTwice` | kernel/src/arb/arb.c:541-620 | for every unit size a run, add, alloc, reserve, in which the same unit is handed out twice |
| `Arb.ReserveWraps` | kernel/src/arb/arb.c:568-604 | a run in which nearly 4 GB are reserved in a range of 64 KB |
| `Arb.FourGigabytes` | kernel/src/arb/arb.c:623-680 | a run in which a request for 4 GB less one byte is granted the address of a live page, whose lookup slot it takes over |
| `Arb.TwoPages` | kernel/src/arb/arb.c:623-680 | two pages, of which the first allocation takes the upper one |
| `Arb.CoveringIsUnique` | kernel/src/arb/arb.c:560-604 | only one tag covers a range, so the search has no choice |
| `Arb.WrappedGrant` | kernel/src/arb/arb.c:656-679 | a grant of less than a unit puts the views in disagreement and takes over the slot of the tag at that address |
| `Arb.Allocator.constructor` | kernel/src/arb/arb.c:130-254 | a new allocator has no span, all views in agreement, and a free list for every size up to `cache_max` |
| `Arb.Allocator.RemFreelist` | kernel/src/arb/arb.c:90-121 | the tag leaves the free lists; ranges and live allocations are unchanged |
| `Arb.Allocator.AddFreelist` | kernel/src/arb/arb.c:57-87 | the tag joins the free list of its size; ranges and live allocations are unchanged |
| `Arb.Allocator.SplitTag` | kernel/src/arb/arb.c:500-538 | in 32-bit arithmetic; on a free tag and a smaller number of units all views go on agreeing; on any larger tag the order does |
| `Arb.Allocator.GetSpan` | kernel/src/arb/arb.c:14-27 | finds the span of an address if and only if there is one |
| `Arb.Allocator.MarkBusy` | kernel/src/arb/arb.c:666-679 | fails exactly when no span holds the tag; after a proper split all views agree and exactly one live range was added |
| `Arb.Allocator.FreeSearch` | kernel/src/arb/arb.c:432-490 | a returned tag is free and large enough; in instant mode it is the first tag of the chosen list |
| `Arb.Allocator.FindRoom` | kernel/src/arb/arb.c:634-654 | in every mode finds a free tag of the size if and only if there is one, so free lists only speed up the search |
| `Arb.Allocator.Alloc` | kernel/src/arb/arb.c:623-680 | for every request and mode: refused if and only if the size is 0 or no free tag holds the rounded size; a grant is cut off the right end of a free tag; if rounding fits in 32 bits it is clear of all live ranges and every view stays exact; if not, it comes from the first free tag, is handed out if and only if some span holds it, and no view survives |
| `Arb.Allocator.GrantPart` | kernel/src/arb/arb.c:656-679 | the splitting branch: exactly one range becomes live, the views survive if and only if it is at least a unit, and a tag of size 0 takes over the slot at its address |
| `Arb.Allocator.GrantWhole` | kernel/src/arb/arb.c:660-679 | the other branch: exactly the tag's range becomes live and every view stays exact |
| `Arb.Allocator.AddRange` | kernel/src/arb/arb.c:298-422 | succeeds if and only if the size is a positive number of units and memory allows; adds exactly the span and changes no live allocation |
| `Arb.Allocator.FindPlace` | kernel/src/arb/arb.c:304-380 | the places that keep spans and tags in address order |
| `Arb.Allocator.FindCovering` | kernel/src/arb/arb.c:560-604 | finds a tag that passes the 32-bit test if and only if there is one |
| `Arb.Allocator.Reserve` | kernel/src/arb/arb.c:541-620 | as written, for every position and size: refused if and only if no tag, free or not, passes the test; handed out if and only if some span holds the position; the views go on agreeing if and only if nothing wraps and the range is free there on a unit boundary, and then exactly that range becomes live |
| `Arb.Allocator.CarveOut` | kernel/src/arb/arb.c:573-619 | both cuts keep the views in agreement if and only if the tag is free and a whole number of units fits there on a unit, and then make exactly the range live |
| `Arb.Allocator.CutRight` | kernel/src/arb/arb.c:590-597 | what lies to the right becomes a free tag; an allocated tag loses that part of its use |
| `Arb.Allocator.TakeRight` | kernel/src/arb/arb.c:586-619 | the range gets a tag of its own, marked; usage grows by its size, what is in use only if the tag was free |
| `Arb.Allocator.Size` | kernel/src/arb/arb.c:917-926 | the rounded size of the live allocation whose first unit holds the address, and none if there is none |
| `Arb.Allocator.Free` | kernel/src/arb/arb.c:683-755 | exactly the live allocation whose first unit holds the address is gone; free neighbours are melted again |
| `Arb.Allocator.Melt` | kernel/src/arb/arb.c:702-754 | restores that no two free tags of a span touch, and changes no live allocation |
| `KmemCache.PositionsSum` | kernel/src/arb/kmem_cache.c:206-311 | used objects plus the stack positions make the total |
| `KmemCache.SomeStackHasObject` | kernel/src/arb/kmem_cache.c:241-262 | while not all objects are in use some stack is not empty, so the search never yields NULL |
| `KmemCache.SomeStackHasRoom` | kernel/src/arb/kmem_cache.c:285-309 | while an object is live some stack has room, so a legal free never overflows |
| `KmemCache.PopStep` | kernel/src/arb/kmem_cache.c:265-275 | the object popped was not live, and every object is still live or stacked exactly once |
| `KmemCache.PushStep` | kernel/src/arb/kmem_cache.c:308-311 | pushing a live object back keeps every object live or stacked exactly once |
| `KmemCache.GrowStep` | kernel/src/arb/kmem_cache.c:95-128 | a new slab with its loaded stack keeps the balance and the equal numbers of slabs and stacks |
| `KmemCache.UsageStep` | kernel/src/arb/kmem_cache.c:80-92 | the slab found by address is the only owner of the object, so per-slab usage stays exact |
| `KmemCache.Cache.constructor` | kernel/src/arb/kmem_cache.c:141-180 | a new cache is balanced with no live object |
| `KmemCache.Cache.GetSlab` | kernel/src/arb/kmem_cache.c:80-92 | finds the first slab whose range holds the address if and only if there is one; for every object there is |
| `KmemCache.Cache.Grow` | kernel/src/arb/kmem_cache.c:210-233 | keeps the invariant, adds the slab's objects and loses none |
| `KmemCache.Cache.Alloc` | kernel/src/arb/kmem_cache.c:206-275 | returns an object that was not live, or none if and only if all objects are in use and none could be added; the cache grows by the slab exactly when the objects left equal the low-water mark and a slab is at hand |
| `KmemCache.Cache.Pop` | kernel/src/arb/kmem_cache.c:265-275 | exactly one object becomes live |
| `KmemCache.Cache.Free` | kernel/src/arb/kmem_cache.c:278-311 | exactly the given object stops being live |
| `KmemCache.Cache.Destroy` | kernel/src/arb/kmem_cache.c:183-203 | releases every slab and every stack, counts down to 0 and gives every object to the destructor exactly once |
| `LibAllocBlocks.GapWithinFree` | kernel/libsmk/liballoc.c:332-346 | no gap exceeds the free space that the block accounts for |
| `LibAllocBlocks.PlaceInGap` | kernel/libsmk/liballoc.c:380-534 | a minor written into a fitting gap keeps the block ordered, disjoint and its usage exact |
| `LibAllocBlocks.DropMinor` | kernel/libsmk/liballoc.c:673-686 | removing a minor keeps the block ordered and its usage exact |
| `LibAllocBlocks.MinorsOrdered` | kernel/libsmk/liballoc.c:380-534 | minors of one block never overlap |
| `LibAlloc.UserPtrInjective` | kernel/libsmk/liballoc.c:20-44 | aligning the pointer never confuses two headers |
| `LibAlloc.UnalignInverts` | kernel/libsmk/liballoc.c:36-44 | unaligning a live pointer finds its header |
| `LibAlloc.FreedPointerIsOwn` | kernel/libsmk/liballoc.c:612-620 | of the pointers on which free acts, exactly the aligned ones with a distance below them were returned by malloc |
| `LibAlloc.HeaderEndFrees` | kernel/libsmk/liballoc.c:612-620 | the address behind a header was never returned, and free acts on it if and only if the request is below 64 KB or at least 384 KB |
| `LibAlloc.SizeExact` | kernel/libsmk/liballoc.c:252-273 | the padded size is the true one if and only if it does not wrap, and 0 for one request only |
| `LibAlloc.NeedExact` | kernel/libsmk/liballoc.c:346-346 | the comparison of all five cases agrees with the true one on every amount of room if and only if size plus header does not wrap |
| `LibAlloc.PagesExact` | kernel/libsmk/liballoc.c:187-207 | the pages asked for hold the request if and only if size plus both headers does not wrap |
| `LibAlloc.WrappedNeedAlwaysFits` | kernel/libsmk/liballoc.c:346-346 | every well-formed block passes the test for a request of 0xFFFFFFE2 bytes, and none has the room |
| `LibAlloc.FourGigabytes` | kernel/libsmk/liballoc.c:243-586 | a run: any heap with a block hands out 4 GB without a page, outside all its blocks |
| `LibAlloc.FreshBlockFits` | kernel/libsmk/liballoc.c:187-237 | a fresh block is well formed, and has room for the request it was made for if and only if the sizes do not wrap |
| `LibAlloc.TooFull` | kernel/libsmk/liballoc.c:345-374 | skipping a block by its usage alone never skips a fitting gap |
| `LibAlloc.PlaceStep` | kernel/libsmk/liballoc.c:380-534 | writing a minor into a fitting gap adds exactly one new minor and keeps all blocks well formed |
| `LibAlloc.FreeStep` | kernel/libsmk/liballoc.c:673-686 | dropping a minor removes exactly that one and keeps all blocks well formed |
| `LibAlloc.UserRegionsDisjoint` | kernel/libsmk/liballoc.c:243-586 | the memory handed to the user for two live allocations never overlaps |
| `LibAlloc.Heap.FindGap` | kernel/libsmk/liballoc.c:380-538 | the first fitting gap of a block, or the proof that none fits |
| `LibAlloc.Heap.Search` | kernel/libsmk/liballoc.c:313-570 | terminates despite the best-bet restart, and gives up if and only if no gap in any block fits |
| `LibAlloc.Heap.Place` | kernel/libsmk/liballoc.c:380-534 | exactly one minor is added and all counters stay the true sums |
| `LibAlloc.Heap.Append` | kernel/libsmk/liballoc.c:187-237 | the new block joins the end of the list and the total stays the true sum |
| `LibAlloc.Heap.Malloc` | kernel/libsmk/liballoc.c:243-586 | for every request: fails if and only if no gap passes the test and the page hook fails; the region returned lies in a block if and only if the sizes do not wrap; if they do not, it lies in a new minor, pages are asked for only when no gap fits, and the heap stays valid; a failed second page request leaves exactly one empty block |
| `LibAlloc.Heap.Free` | kernel/libsmk/liballoc.c:596-719 | acts if and only if a live header lies where the stored distance points, and then removes exactly that allocation; every live pointer does; all counters stay exact and an emptied block goes |
| `LibAlloc.Heap.FindHeader` | kernel/libsmk/liballoc.c:617-620 | a live header is found at an address if and only if there is one |
| `SchedulerState.TopSeparated` | kernel/src/scheduler.c:537-625 | at the top of the loop the queues are disjoint and timer entries are dormant with a duration |
| `Seqs.Pigeonhole` | kernel/src/scheduler.c:74-93 | a duplicate-free queue is never longer than the number of threads, nor a port list than the number of ports |
| `SchedulerState.RestartKeeps` | kernel/src/scheduler.c:197-253 | restart keeps the timer queue sorted and its threads the same |
| `SchedulerState.MovedInv` | kernel/src/threads.c:59-89 | a state change of another thread keeps the invariant |
| `SchedulerState.RequestInv` | kernel/src/threads.c:66-78 | a deferred request keeps the invariant |
| `SchedulerState.SleptInv` | kernel/src/scheduler.c:134-190 | pausing keeps the timer queue sorted and duplicate-free |
| `SchedulerState.ReturnedTop` | kernel/src/scheduler.c:291-335 | honouring the request re-establishes the top-of-loop invariant |
| `SchedulerState.DueExact` | kernel/src/scheduler.c:341-378 | the due entries are exactly a prefix of the timer queue |
| `SchedulerState.ExpiredExact` | kernel/src/scheduler.c:341-378 | exactly the due entries move, in deadline order, to the end of the run queue; the rest stay in order |
| `SchedulerState.ExpiredTop` | kernel/src/scheduler.c:341-378 | expiry keeps the invariant; the time to the next deadline is positive, or 0 if and only if no timer is left |
| `SchedulerState.ExpiredThreads` | kernel/src/scheduler.c:341-378 | every thread whose deadline has passed, and no other, gets its state back, with the time it slept, and joins the run queue |
| `SchedulerState.SleepsUntilDeadline` | kernel/src/scheduler.c:134-378 | a thread that sleeps for ms from now is off the run queue, and expiry puts it back if and only if now + ms has come; it then has slept since now |
| `SchedulerState.NextStaysNextIff` | kernel/src/scheduler.c:316-322 | when the thread just dispatched leaves, the thread that was next stays next if and only if the one that left was not last or 2^32 - 1 is a multiple of the new length |
| `SchedulerState.CursorPassesOver` | kernel/src/scheduler.c:316-322 | of three threads the last one leaves after its turn, and the first is passed over |
| `SchedulerState.RunsSoon` | kernel/src/scheduler.c:578-612 | a thread runs within two dispatches for each thread ahead of it |
| `SchedulerState.EveryThreadRuns` | kernel/src/scheduler.c:578-612 | with k queued threads every one runs in any 2k consecutive dispatches, however busy the fast ring is |
| `SchedulerState.BusyRingEverySecond` | kernel/src/scheduler.c:578-612 | with the flip clear a ring that is not empty comes first, and a ring that stays busy gets at least every second dispatch |
| `SchedulerState.NoTwoFast` | kernel/src/scheduler.c:578-612 | the ring never gets two dispatches in a row while a thread is queued |
| `Scheduler.OpenGap` | kernel/src/scheduler.c:171-183 | the shifting loop inserts one entry and keeps the others in order |
| `Scheduler.CloseGap` | kernel/src/scheduler.c:116-121 | the shifting loop removes one entry and keeps the others in order |
| `Scheduler.MoveToFront` | kernel/src/scheduler.c:218-249 | the shifting loop moves one entry to the front and keeps the others in order |
| `Scheduler.DropFront` | kernel/src/scheduler.c:370-373 | the shifting loop removes a prefix |
| `Scheduler.Cpu.constructor` | kernel/src/scheduler.c:29-68 | a fresh CPU is at the top of its loop with empty queues |
| `Scheduler.Cpu.SubQueue` | kernel/src/scheduler.c:74-93 | the thread joins the end of the run queue, or the call fails if and only if the queue is full |
| `Scheduler.Cpu.SubDequeue` | kernel/src/scheduler.c:96-131 | the thread leaves the run queue and the cursor stays in range through the 32-bit wrap |
| `Scheduler.Cpu.RunIndex` | kernel/src/scheduler.c:110-114 | finds the first entry of the thread |
| `Scheduler.Cpu.Restart` | kernel/src/scheduler.c:197-253 | the thread's own entry is at the front with deadline 0 and otherwise unchanged; the others follow in order |
| `Scheduler.Cpu.TimerOf` | kernel/src/scheduler.c:218-224 | finds the thread's timer |
| `Scheduler.Cpu.SetThreadState` | kernel/src/threads.c:59-89 | a change from outside sets the state and moves the thread between the queues, to the end of the run queue if it now runs; of a sleeper only the timer changes, which becomes due |
| `Scheduler.Cpu.RequestState` | kernel/src/threads.c:66-78 | a change of oneself is recorded for the scheduler and changes no queue |
| `Scheduler.Cpu.GoDormant` | kernel/src/threads.c:482-534 | does nothing when something is waiting; otherwise requests dormancy, and with a timeout an entry with deadline now + timeout is in the timer queue, without one that queue is unchanged |
| `Scheduler.Cpu.TimerPosition` | kernel/src/scheduler.c:164-169 | the slot after every deadline that is not later |
| `Scheduler.Cpu.InsertTimer` | kernel/src/scheduler.c:171-183 | the entry joins the timer queue at its place and the others keep their order |
| `Scheduler.Cpu.PauseCurrent` | kernel/src/scheduler.c:134-190 | exactly one entry, with deadline now + ms and start now, joins the timer queue in deadline order; the duration is ms and dormancy is requested |
| `Scheduler.Cpu.CollectDuration` | kernel/src/threads.c:513-514 | the woken thread takes its duration and clears it |
| `Scheduler.Cpu.Return` | kernel/src/scheduler.c:291-335 | the thread that asked has the state it asked for and has left the run queue, every other keeps its place; the top-of-loop invariant holds |
| `Scheduler.Cpu.WakeDue` | kernel/src/scheduler.c:347-367 | every due thread, and no other, joins the run queue in deadline order |
| `Scheduler.Cpu.Wake` | kernel/src/scheduler.c:351-360 | one thread takes its state and slept time back and joins the run queue |
| `Scheduler.Cpu.DropTimers` | kernel/src/scheduler.c:370-373 | the entries that are left move to the front in order |
| `Scheduler.Cpu.RemoveTimers` | kernel/src/scheduler.c:341-378 | every due thread, and no other, is back on the run queue with its state and the time it slept; the waiting time is that to the first deadline left, or 0 if and only if no timer is left |
| `Scheduler.Cpu.FastQueue` | kernel/src/scheduler.c:382-403 | the ring gains the thread at its end |
| `Scheduler.RingPush` | kernel/src/scheduler.c:394-397 | a write at the stop of a ring with room appends to it, through the wrap |
| `Scheduler.Cpu.FastDequeue` | kernel/src/scheduler.c:405-423 | the ring loses its head |
| `Scheduler.Cpu.Select` | kernel/src/scheduler.c:578-612 | with the flip clear the head of the ring if there is one, else the thread at the cursor, which moves on; keeps both queues, and idles if and only if nothing can run |
| `Scheduler.SleepAndExpire` | kernel/src/scheduler.c:134-378 | go_dormant, the return to the scheduler and an expiry: the thread is back on the run queue if and only if its deadline has come, running, with the time since it went to sleep |
| `Scheduler.SleepUntilWoken` | kernel/src/threads.c:482-534 | without a timeout no expiry wakes the thread |
| `Scheduler.WakeEarly` | kernel/src/scheduler.c:197-378 | a sleeper that is told to run is on the run queue after the next expiry, whatever the time, with the time it slept |
| `RwLock.StepInv` | kernel/src/rwlock.c:28-83 | every step of every thread keeps the counters equal to the holders |
| `RwLock.RunSafe` | kernel/src/rwlock.c:28-83 | in every state of every interleaving of any number of threads a writer is alone and the counters are exact |
| `RwLock.TornRunSafe` | kernel/src/rwlock.c:28-83 | the code as written, with the increment as a load and a store: in every state of every interleaving a writer is alone and the reader count is not too low |
| `RwLock.RequestBlocksReaders` | kernel/src/rwlock.c:40-61 | once a write is requested no reader enters until a writer releases |
| `RwLock.TornRequestBlocksReaders` | kernel/src/rwlock.c:40-61 | there too no reader enters while a write is requested |
| `RwLock.OnlyWriterClears` | kernel/src/rwlock.c:70-83 | only a thread that holds the lock for writing clears the request |
| `RwLock.TornIncrementLosesRelease` | kernel/src/rwlock.c:58-79 | with the increment as a load and a store, some run of two threads loses a release |
| `RwLock.WedgedForever` | kernel/src/rwlock.c:28-83 | from then on no schedule lets a writer in |
| `RwLockProgress.StepDrift` | kernel/src/rwlock.c:58-79 | every step of the code as written adds to the excess of the counter exactly the releases that it overlooks |
| `RwLockProgress.CountsExactIff` | kernel/src/rwlock.c:28-83 | after any run of the code as written the counters are exact if and only if no store overlooked a release |
| `RwLockProgress.WedgedIff` | kernel/src/rwlock.c:28-83 | after any run the lock is wedged if and only if some store overlooked a release |
| `RwLockProgress.LostForever` | kernel/src/rwlock.c:28-83 | once a loaded count has gone stale no later schedule admits a writer |
| `RwLockProgress.WriterEntersIff` | kernel/src/rwlock.c:28-83 | after any run of the code as written a waiting writer can still enter if and only if no store overlooked a release and no loaded count is stale |
| `RwLockProgress.WriterCanEnter` | kernel/src/rwlock.c:28-46 | from every ready state, with either increment, some schedule lets a waiting writer in |
| `RwLockProgress.ReaderCanEnter` | kernel/src/rwlock.c:49-68 | from every ready state, with either increment, some schedule lets a waiting reader in, even while a write is requested |
| `RwLockProgress.RunOwned` | kernel/src/rwlock.c:40-74 | in every run a set request has an owner that is on its way to clearing it |
| `RwLockProgress.NoDeadlock` | kernel/src/rwlock.c:28-83 | with the increment as one step, from every reachable state every waiting writer and reader can still enter |
| `RwLockRequests.FailureRequests` | kernel/src/rwlock.c:30-43 | in any run of any threads, the turn after a failed test of a writer sets the request |
| `RwLockRequests.RequestHolds` | kernel/src/rwlock.c:28-83 | a request that is set stays set until a writer releases, and the readers only become fewer |
| `RwLockRequests.FailedWriterHoldsReadersOff` | kernel/src/rwlock.c:28-83 | in every run from the initial state, with either increment, a writer that has failed once keeps every new reader out until the next release of a writer |
| `RwLockRequests.RetryHasFailed` | kernel/src/rwlock.c:30-43 | a thread that is about to try again has failed its test, and the request is set unless a writer has released since |
| `RwLockRequests.WriteAttempt` | kernel/src/rwlock.c:28-46 | an undisturbed attempt to write enters if and only if nobody holds the lock, and else leaves the request and starts over |
| `RwLockRequests.ReadAttempt` | kernel/src/rwlock.c:49-68 | an undisturbed attempt to read enters if and only if there is no writer and no request, and else changes nothing |
| `RwLockRequests.ReleaseCall` | kernel/src/rwlock.c:70-83 | an undisturbed release clears the writer and the request, or else counts one reader out |
| `RwLockRequests.SecondThreadRequests` | kernel/src/rwlock.c:28-68 | a run of two threads, one reading and one trying to write, that ends with the request set |
| `HashTable.ProbeCovers` | kernel/src/ds/htable.c:91-97 | probing from any key visits every slot |
| `HashTable.GrowFits` | kernel/src/ds/htable.c:85-88 | doubling leaves room under any limit of at least 50 percent |
| `HashTable.ShrinkFits` | kernel/src/ds/htable.c:121-124 | halving leaves room under any limit of at least 50 percent |
| `HashTable.Table.constructor` | kernel/src/ds/htable.c:10-36 | an empty table within its load limit |
| `HashTable.Table.Put` | kernel/src/ds/htable.c:91-108 | the element is added and the count is exact |
| `HashTable.Table.Rehash` | kernel/src/ds/htable.c:49-72 | below a limit of 100 percent the contents are preserved whatever the new size, and where they fit under the limit no inner insert rehashes again; from 100 on exactly the first elements survive that fit; a failed allocation changes nothing |
| `HashTable.Table.Reinsert` | kernel/src/ds/htable.c:67-68 | one round of the rehash, including the rehash that it may start |
| `HashTable.Table.Insert` | kernel/src/ds/htable.c:76-109 | for every limit: adds the element to the multiset, fails if and only if the table is full; below 100 percent a table that is not full never becomes so |
| `HashTable.Table.Remove` | kernel/src/ds/htable.c:112-144 | removes one occurrence and nothing else, except that from 100 percent on a shrink keeps exactly the first elements that fit |
| `HashTable.Table.TakeOut` | kernel/src/ds/htable.c:127-140 | the probing loop removes one occurrence if there is one |
| `HashTable.Table.Retrieve` | kernel/src/ds/htable.c:146-171 | finds a match if and only if one exists, whatever the hash function |
| `HashTable.Table.Get` | kernel/src/ds/htable.c:175-191 | lists each element once, by rank |
| `PagedQueue.PushAppends` | kernel/src/ds/aqueue.c:85-133 | new, fill and save append one object, across page growth |
| `PagedQueue.NextRemoves` | kernel/src/ds/aqueue.c:164-205 | next removes the oldest object, across page freeing |
| `PagedQueue.RewindKeeps` | kernel/src/ds/aqueue.c:168-176 | the reset of an empty queue keeps it valid and empty |
| `PagedQueue.QueueRefinesFifo` | kernel/src/ds/aqueue.c:85-205 | push and take are append and remove-first on the contents |
| `PagedQueue.RunRefinesFifo` | kernel/src/ds/aqueue.c:85-205 | every run of pushes and takes returns exactly what a FIFO sequence returns |
| `PagedQueue.PagesBounded` | kernel/src/ds/aqueue.c:85-205 | the number of pages is bounded by the live objects |
| `PagedQueue.DiscardUnnoticedIff` | kernel/src/ds/aqueue.c:70-176 | every later run returns what a FIFO sequence returns if and only if the dropped slot added no page behind others |
| `PagedQueue.GrownBetrays` | kernel/src/ds/aqueue.c:70-176 | for every page size and contents, a run after such a drop that reads an object other than the one pushed |
| `PagedQueue.PeekMatchesRead` | kernel/src/ds/aqueue.c:142-158 | peek and next agree if and only if the first page is not read to its end |
| `PagedQueue.PeekShowsStale` | kernel/src/ds/aqueue.c:142-158 | for every page size and contents, a run after which a peek shows an object that was removed before |
| `PagedQueue.AtomicQueue.constructor` | kernel/src/ds/aqueue.c:17-55 | an empty valid queue |
| `PagedQueue.AtomicQueue.New` | kernel/src/ds/aqueue.c:85-123 | stages a slot, growing a page exactly when the last one is used up |
| `PagedQueue.AtomicQueue.Save` | kernel/src/ds/aqueue.c:127-133 | commits the staged slot |
| `PagedQueue.AtomicQueue.Push` | kernel/src/messages.c:42-60 | the locked section of send appends exactly one object, or nothing without memory |
| `PagedQueue.AtomicQueue.Size` | kernel/src/ds/aqueue.c:58-61 | the number of objects |
| `PagedQueue.AtomicQueue.Get` | kernel/src/ds/aqueue.c:142-158 | none if and only if empty; the oldest object unless the first page is read to its end |
| `PagedQueue.AtomicQueue.Next` | kernel/src/ds/aqueue.c:164-205 | the oldest object, removed, and none if and only if empty |
| `Ports.RoomForPort` | kernel/src/ports.c:66-71 | while a port is free no thread's array is full, so a slot is always found |
| `Ports.CreateAgrees` | kernel/src/ports.c:21-75 | after creation the arrays still list exactly the owned ports |
| `Ports.ReleaseAgrees` | kernel/src/ports.c:151-209 | after release the arrays still list exactly the owned ports |
| `Ports.FirstFree` | kernel/src/ports.c:66-71 | the first free entry is the end of the packed list |
| `Ports.Compact` | kernel/src/ports.c:191-205 | one pass removes the port and keeps the array packed |
| `Messages.PortAfterSend` | kernel/src/messages.c:17-77 | sending appends to what was sent and takes nothing |
| `Messages.PortAfterTake` | kernel/src/messages.c:80-175 | what is taken is the oldest message sent and not yet taken |
| `Messages.PeekThenReceive` | kernel/src/messages.c:178-252 | peek shows the message that receive gives, except after a fully read page, where both are named |
| `Messages.Process.constructor` | kernel/src/process.c:134-143 | a process whose threads own no port |
| `Messages.Process.CreatePort` | kernel/src/ports.c:21-75 | succeeds if and only if the port is valid and free, the thread exists and memory allows; the packed arrays stay exact |
| `Messages.Process.Install` | kernel/src/ports.c:61-74 | the tail of creation: owner, packed array and empty queue |
| `Messages.Process.TakeFrom` | kernel/src/messages.c:105-130 | takes the oldest untaken message of one port |
| `Messages.Process.Send` | kernel/src/messages.c:17-77 | succeeds if and only if the port is open and memory allows, and appends exactly that message |
| `Messages.Process.Receive` | kernel/src/messages.c:80-175 | the oldest message of the port asked for, of the hinted port, or else of the first port of the array that is open and has one; none if and only if nothing waits where it looks; the hint is cleared |
| `Messages.Process.SlotOf` | kernel/src/messages.c:192-207 | finds the port in the thread's array if and only if it is there |
| `Messages.Process.ScanWaiting` | kernel/src/messages.c:217-249 | the first open port with a message |
| `Messages.Process.Peek` | kernel/src/messages.c:178-252 | reports a message of the port asked for, or of the first port that is open and has one, and leaves exactly that port in the hint; none if and only if nothing waits |
| `Messages.Process.PeekReceive` | kernel/src/messages.c:80-252 | the receive after a peek gives the oldest message of the port in the hint, and the peeked one unless that queue's first page was read to its end |
| `Messages.Process.SetMasked` | kernel/src/ports.c:118-147 | masks exactly the port, or with -1 exactly the ports that the thread owns |
| `Messages.Process.DropHinted` | kernel/src/messages.c:297-317 | drops exactly the oldest untaken message of the hinted port |
| `Messages.Process.Drop` | kernel/src/messages.c:285-344 | drops the oldest message of the hinted port; without a hint drops one if and only if the first unmasked port has one |
| `Messages.DropMisses` | kernel/src/messages.c:320-343 | a run in which a drop fails although a message waits |
| `Messages.Process.ReleasePort` | kernel/src/ports.c:151-209 | drains an unmasked port, frees it and removes it from exactly its owner's array |
| `Messages.Process.DrainPort` | kernel/src/ports.c:174-175 | the dropping loop ends, with the port empty unless it is masked and no other port touched |
| `Messages.Process.CloseGap` | kernel/src/ports.c:180-206 | the tail of the release keeps ownership and arrays in agreement |
| `Messages.Process.ReleaseFirst` | kernel/src/ports.c:242-253 | one round frees exactly the first port of the thread |
| `Messages.Process.ReleaseThreadPorts` | kernel/src/ports.c:242-253 | terminates with the thread owning no port, and changes no other thread's ports |
| `FrameSearch.BlockedStep` | kernel/src/physmem.c:104-113 | a taken frame rules out every start up to it |
| `FrameSearch.JumpStep` | kernel/src/physmem.c:95-100 | the jump over the end of the map lands where the search resumes |
| `FrameSearch.SearchFails` | kernel/src/physmem.c:93-119 | when the loop ends, every start that is not passed over has a taken frame |
| `FrameSearch.SearchFinds` | kernel/src/physmem.c:93-115 | what is found is the first free run in the order of the search |
| `FrameSearch.NothingMissed` | kernel/src/physmem.c:88-152 | with the first megabyte taken, a request of up to 258 pages can be granted if and only if a run of that length is free |
| `FrameSearch.RunMissed` | kernel/src/physmem.c:95-100 | a bitmap with a free run of 300 frames that a request for 300 does not get |
| `Paging.PhysMem.constructor` | kernel/src/physmem.c:258-280 | the first megabyte is taken |
| `Paging.PhysMem.Scan` | kernel/src/physmem.c:104-113 | the first taken frame of the run |
| `Paging.PhysMem.Search` | kernel/src/physmem.c:88-119 | terminates with the first free run in the order of the search, or with none if and only if every free run is passed over |
| `Paging.PhysMem.Alloc` | kernel/src/physmem.c:88-152 | granted if and only if more frames than asked for are free and a free run is not passed over, which for up to 258 pages is every free run; it gives the first such run, takes exactly its frames and remembers its end |
| `Paging.PhysMem.Free` | kernel/src/physmem.c:159-179 | exactly the given frames become free |
| `Paging.FindFree` | kernel/src/paging.c:471-509 | the skipping search gives exactly the naive first fit |
| `Paging.TableStep` | kernel/src/paging.c:325-330 | a frame turned into a page table keeps every region mapped and apart |
| `Paging.EntryStep` | kernel/src/paging.c:333-336 | writing an entry outside every region keeps every region mapped |
| `Paging.RegionStep` | kernel/src/ualloc.c:44-55 | a region mapped on absent pages with free frames is apart from all others in pages and frames |
| `Paging.RemoveRegion` | kernel/src/ualloc.c:127-133 | the rest of the list stays well formed and apart from the removed region |
| `Paging.GiveBack` | kernel/src/ualloc.c:146-146 | returning a removed region's frames takes no frame from anyone else |
| `Paging.OnlyRegionAt` | kernel/src/ualloc.c:118-125 | an address names at most one region |
| `Paging.OtherUntouched` | kernel/src/physmem.c:88-179 | a step that gives back only own frames and takes only free ones leaves every other process well formed and apart |
| `Paging.MachineStep` | kernel/src/ualloc.c:10-259 | such a step of one of any number of processes keeps all of them well formed, with no frame held twice |
| `Paging.UserSpace.constructor` | kernel/src/process.c:110-132 | a process without regions |
| `Paging.UserSpace.EnsureTable` | kernel/src/paging.c:325-330 | a page table is present afterwards if and only if it was or a frame can be had; no mapping changes |
| `Paging.UserSpace.MapPage` | kernel/src/paging.c:322-340 | exactly one page is mapped, if and only if its page table is there or can be had |
| `Paging.UserSpace.DirectMap` | kernel/src/paging.c:300-343 | exactly the pages of the run are mapped, page by page, to consecutive frames; fails only when a page table is missing and memory is exhausted |
| `Paging.UserSpace.Provide` | kernel/src/paging.c:346-360 | the lowest free run in the window is mapped and listed; refused if and only if there is none; a NULL table only when one is missing and memory is exhausted |
| `Paging.UserSpace.Alloc` | kernel/src/ualloc.c:10-56 | refused if and only if no page is asked for, the frame search finds none, the list entry cannot be had or no virtual run is free; else a region at the lowest free run with the first free frames, apart from every other; a refusal gives every frame back |
| `Paging.UserSpace.Map` | kernel/src/ualloc.c:213-247 | refused if and only if no page is asked for or no run in the window is free; else the caller's frames are mapped at the lowest free run and never given back, unless a page table is missing and memory is exhausted |
| `Paging.UserSpace.Release` | kernel/src/paging.c:366-391 | exactly the pages of the run become absent |
| `Paging.UserSpace.Free` | kernel/src/ualloc.c:112-155 | unmaps exactly the region's pages and returns exactly its frames; an unknown address changes nothing |
| `Paging.UserSpace.FreeFirst` | kernel/src/ualloc.c:250-259 | one round frees exactly the first region |
| `Paging.UserSpace.FreeAll` | kernel/src/ualloc.c:250-259 | no region is left, exactly their pages are absent and exactly their own frames free |
| `Paging.Machine.constructor` | kernel/src/process.c:98-132 | new processes on one memory hold no frame |
| `Paging.Machine.Alloc` | kernel/src/ualloc.c:10-56 | the outcome of user_alloc with its exact refusal, no two processes ever sharing a frame and the others unchanged |
| `Paging.Machine.Map` | kernel/src/ualloc.c:213-247 | the outcome of user_map with its exact refusal and place, with the same separation |
| `Paging.Machine.Free` | kernel/src/ualloc.c:112-155 | exactly the region at the address is freed and an unknown address changes nothing, with the same separation |
| `Paging.Machine.FreeAll` | kernel/src/ualloc.c:250-259 | exactly the process's regions are unmapped and their own frames freed, with the same separation |
| `Desktop.InsertConfined` | spoon/gui/server/desktop.c:73-86 | adding a window changes only pixels that it covers |
| `Desktop.RemoveConfined` | spoon/gui/server/desktop.c:89-108 | removing a window changes only pixels that it covered |
| `Desktop.FocusConfined` | spoon/gui/server/desktop.c:112-117 | bringing a window to the front changes only pixels that it covers |
| `Desktop.PixelComposed` | spoon/gui/server/desktop.c:168-252 | without recursion: a pixel shows the buffer entry of the first window of the list that is not hidden, covers it and is not transparent there, with its id, and the background where there is none |
| `Desktop.ComposedUnique` | spoon/gui/server/desktop.c:222-252 | that description leaves a pixel one thing to show |
| `Desktop.Screen.constructor` | spoon/gui/server/desktop.c:26-50 | a screen without windows |
| `Desktop.Screen.DrawBackground` | spoon/gui/server/desktop.c:139-166 | exactly the on-screen pixels of the rectangle show the background |
| `Desktop.Screen.DrawWindow` | spoon/gui/server/desktop.c:168-217 | exactly the visible, non-transparent pixels of the window inside the rectangle and the screen show it, in bitmap and window map |
| `Desktop.Screen.Update` | spoon/gui/server/desktop.c:222-252 | the entry at y * width + x of bitmap and window map is, for every pixel of the rectangle, the buffer entry and id of the front-most window drawn there, or the background; no other pixel changes |
| `Desktop.Screen.Refresh` | spoon/gui/server/desktop.c:256-259 | the same for every pixel of the screen |
| `Desktop.Screen.Add` | spoon/gui/server/desktop.c:73-86 | the window is in front of all others, or nothing changes without memory |
| `Desktop.Screen.Remove` | spoon/gui/server/desktop.c:89-108 | exactly the first entry of the window leaves the list, or it was not there |
| `Desktop.Screen.Focus` | spoon/gui/server/desktop.c:112-117 | the window moves to the front and the others keep their order; without memory it is gone |
| `Desktop.Screen.FocusAndUpdate` | spoon/gui/server/desktop.c:112-252 | focusing a window, whether or not that succeeds, and repainting its rectangle equals a full refresh |
| `Desktop.Screen.WindowAt` | spoon/gui/server/desktop.c:120-129 | the window that the composition shows there, or a failure if and only if the pixel is off the screen |
| `Desktop.Screen.Change` | spoon/gui/server/desktop.c:222-259 | if all changes lie in the rectangle, repainting it equals a full refresh |
| `DevFsRequests.AskStep` | devices/devfs/state.c:107-128 | a new request in an idle slot keeps every request answered once or held in one slot |
| `DevFsRequests.ReplyStep` | devices/devfs/state.c:132-156 | clearing a slot keeps every request answered once or held in one slot |
| `DevFsRequests.OneReplyOrOneSlot` | devices/devfs/state.c:85-156 | every request dispatched has exactly one reply or exactly one slot, never both, and its reply went to its requester |
| `DevFsRequests.CyclicReaches` | devices/devfs/state.c:85-102 | the rotation visits every slot within one round |
| `DevFsRequests.RequestTable.constructor` | devices/devfs/state.c:54-81 | all slots are idle and nothing was asked |
| `DevFsRequests.RequestTable.NextId` | devices/devfs/state.c:85-102 | terminates with the first idle slot in rotation order |
| `DevFsRequests.RequestTable.Insert` | devices/devfs/state.c:107-128 | exactly the first idle slot in rotation order takes the request |
| `DevFsRequests.RequestTable.Remove` | devices/devfs/state.c:132-156 | only the request's own driver gets the requester, and only once |
| `DevFsRequests.RequestTable.Respond` | devices/devfs/response.c:13-38 | a response is forwarded if and only if the slot waits for that process; it goes to the requester, the slot becomes idle and no other changes, and the request was not answered before |
| `DevFsRequests.WaitsForItsDriver` | devices/devfs/state.c:107-156 | through any requests and responses a waiting request keeps its slot and requester as long as its own driver has not responded, and loses the slot when it has |
| `DevFsRequests.RoundTrip` | devices/devfs/response.c:13-38 | a request, any other responses, and the response of its driver: the answer goes to the process that asked, and the request is answered |
| `DevFs.NextInv` | devices/devfs/files.c:59-184 | register, deregister, open and close keep the invariant in all their branches |
| `DevFs.EveryRun` | devices/devfs/files.c:59-184 | after any requests the next descriptor is not open, hooks are exactly the open files and every open file has its device |
| `DevFs.DeregisterIffUnused` | devices/devfs/devices.c:114-131 | an openable device can be deregistered if and only if no descriptor is open on it |
| `DevFs.CloseUndoesOpen` | devices/devfs/files.c:133-184 | closing what an open returned restores all tables exactly |
| `DevFs.FailedOpenKeepsHooks` | devices/devfs/files.c:80-101 | a failed open leaves all hooks as they were if and only if the device is absent or can be opened |
| `DevFs.LeakHappens` | devices/devfs/files.c:80-86 | a concrete run that leaves a hook without a descriptor |
| `DevFs.LeakedHookIsForever` | devices/devfs/devices.c:122-124 | such a device stays registered after any further requests |
| `DevFs.NeededExact` | devices/devfs/files.c:213-228 | read, write, stream, script, map and unmap need the flags 2, 4, 8, 16, 32 and 64, and other operations are not supported |
| `DevFs.Server.constructor` | devices/devfs/main.c:62-77 | no device, no process |
| `DevFs.Server.FindByName` | devices/devfs/devices.c:211-218 | finds the device of a name if and only if there is one |
| `DevFs.Server.ScanFd` | devices/devfs/files.c:106-111 | terminates with the first descriptor above that is not open |
| `DevFs.Server.ReleaseDevice` | devices/devfs/devices.c:255-280 | removes the first hook of the descriptor and keeps the others in order |
| `DevFs.Server.Unhook` | devices/devfs/files.c:89-101 | releasing the hook of a refused open restores the tables exactly |
| `DevFs.Server.RegisterDevice` | devices/devfs/devices.c:63-111 | refuses exactly a name in use or missing memory; otherwise adds the device under a fresh id |
| `DevFs.Server.DeregisterDevice` | devices/devfs/devices.c:114-131 | refuses exactly a device that is not the caller's or has hooks; else exactly that device is gone, and no descriptor refers to it |
| `DevFs.Server.OpenDevice` | devices/devfs/files.c:59-129 | succeeds if and only if the device exists, can be opened (flag 1), has the flags and memory allows; exactly the next descriptor of the process is opened, and the first one above that is not open becomes the next |
| `DevFs.Server.CloseDescriptor` | devices/devfs/files.c:133-184 | succeeds if and only if the descriptor is open; closes exactly that one, which becomes the next to be used |
| `DevFs.Server.Dispatch` | devices/devfs/files.c:188-257 | exact conditions for every refusal, with the flag of each operation as a number; a request is forwarded only to the device the descriptor is open on; an undeliverable one frees its slot and is answered with the port number, which is never an error and is success if and only if it is 0 |
| `DevFs.Server.Forward` | devices/devfs/files.c:233-257 | the request gets a slot for its driver, or is answered and its slot cleared if it could not be delivered |
| `DevFs.LostRequest` | devices/devfs/files.c:246-251 | a run in which a lost request is reported to its sender as a success |

## Left out

Preconditions and abstractions of the model:

- Arb.Allocator.Reserve: requires that tag records are available for its two splits.
- Arb.Allocator.AddRange: requires the new range not to overlap a span, as kernel/src/arb/arb.h:37 demands of the caller, and to end below 4 GB.
- Arb.Allocator.SplitTag: a missing tag record is the outcome `Fault` of `Alloc`; the free lists after a step on an allocated tag are not described.
- LibAlloc.Heap.Malloc: the page hook returns pages in the address space, apart from the blocks there are; alignment is on, as in kernel/libsmk.
- LibAlloc.Heap.Free: a magic number is found exactly at live headers, so that data which imitates a header is not modelled; the word below a pointer is a parameter, tied to what the allocator wrote there.
- HashTable.Table.Insert: keys are unbounded, so the overflow of `i + key` and of `-key` is not modelled; all allocations of one call succeed or its first one fails.
- KmemCache.Cache.constructor: the creation that fails is left out, as in the other constructors.
- Scheduler.Cpu.SetThreadState: no thread is made dormant by another thread, and one CPU has at most 1024 threads.
- Scheduler.Cpu.FastQueue: requires a ring with room, as the assertion at kernel/src/scheduler.c:399 demands.
- Scheduler.Cpu.Wake: times are unbounded and the clock does not run backwards; for a start in the future the slept time is 0.
- RwLock.RunSafe: the increment at kernel/src/rwlock.c:58 is one step; `TornRunSafe` is about the code as written.
- Messages.Process.Send: ends before the wake-up of the receiver.
- Messages.Process.ReleasePort: pulses are not modelled, and a masked port is not drained by the code.
- Paging.UserSpace.Alloc: at most 16384 pages, so that a run past the ceiling stays below the kernel's own 4 MB entries; a NULL page table, which the code does not check, is the outcome `NullTable`.
- Paging.UserSpace.Map: requires a page-aligned location and a successful malloc of the list entry.
- DevFs.Server.OpenDevice: the growth of the hook array and the insertion into the file table succeed; on failure the code loses the array.
- DevFs.Server.Dispatch: requires an idle request slot and one handler thread.
- DevFsRequests.RequestTable.Respond: requires a request id below 1024; the code does not check the one a driver sends.

Not modelled:

- Multi-CPU wake-up races, interrupt flags, APIC, GDT, TSS, FPU, boot and system entry: hardware and assembly.
- `user_alloc_hard`, `user_ensure`, `delete_page_directory` and shared memory: the code keeps no clean invariant there.
- Pulses, `arb_get`, `arb_display`, `arb_destroy`, `calloc`, `realloc`, statistics and display code: they would add only easy members.
- Streams, pushes, `stat`, pattern matching and timeouts of devfs: bookkeeping without an invariant, or not implemented.
- `desktop_sync`, cursor, mouse and font drawing: input and output.
- `comms_deregister` and the client wrappers: plumbing.
