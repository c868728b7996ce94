# Verified models of UTAMO OS

Dafny models of the hardware-independent core of UTAMO OS, a small x86-64 kernel written in C, and proofs about them:

- **the kernel heap** (`Heap*.dfy`): boundary-tag blocks and an offset-linked free list inside an arena of bytes, its
  validator, and the paging transaction that grows the arena;
- **the scheduler** (`Sched*.dfy`): intrusive READY and sleep lists over caller-owned task nodes, refined against a policy
  on plain sequences, and properties of whole runs of that policy;
- **physical memory** (`MemoryMap.dfy`, `Pmm*.dfy`): the boot memory map, the plan for the bitmaps, the frame allocator;
- **page tables** (`Page*.dfy`, `Vmm*.dfy`, `TableLedger.dfy`, `FrameLedger.dfy`): four-level walks and what they mean, and
  mapping as a transaction that builds missing tables in private and publishes them with one store;
- **user processes** (`User*.dfy`): page ownership, checked copies across the user boundary, the audit and teardown;
- **executables** (`Elf*.dfy`): validation of an ELF image and loading it, byte for byte;
- **FAT32** (`Fat32*.dfy`): the all-or-nothing import of a volume into a tree of nodes;
- **networking** (`Checksum.dfy`, `Packet*.dfy`, `Dns*.dfy`): the Internet checksum, Ethernet, IPv4 and UDP codecs, DNS
  names, queries and replies.

Objects whose C functions update fields in place are classes; their methods are proved against functions and predicates on
values, and lemmas about those values carry the claims over whole runs. `ghost` parameters and fields hold what a proof
needs to name (the set of block starts, the place of a table in the tree, the record of stores) and decide nothing.

Everything outside is a parameter. Callbacks that may fail (growth, allocation, mapping, device reads) answer from an
arbitrary script. Table memory is read and written through `Tables`, which records every store; device sectors through
`ReadSector`, which records every read.

## Model

| member | source | states |
|---|---|---|
| `HeapCore.Heap.Validate` | kernel/memory/heap_core.c:90-144 | The single pass accepts a heap exactly when the declarative invariant holds: the blocks tile the arena with matching back sizes, no two free blocks touch, the free list is the free blocks in address order with inverse links, and the counters are the sums over live blocks. It terminates on any corrupted header. |
| `HeapCore.Heap.Init` | kernel/memory/heap_core.c:146-171 | Accepts exactly the valid sizes on an uninitialized heap; the result is well-formed with no live allocation. Refusal changes nothing. |
| `HeapCore.Heap.RemoveFree` | kernel/memory/heap_core.c:173-186 | The list loses exactly one block and stays a doubly linked address-ordered list; no size, tag or foreign link changes. |
| `HeapCore.Heap.InsertFree` | kernel/memory/heap_core.c:188-207 | The list gains exactly one block at its address-ordered place. |
| `HeapCore.Heap.FindFit` | kernel/memory/heap_core.c:224-233 | First fit: every free block before the one returned is too small, and none fits if none is returned. |
| `HeapCore.Heap.GrowHeap` | kernel/memory/heap_core.c:244-288 | Succeeds exactly when growth is allowed, the limit leaves room and the callback grants it; the arena grows by exactly the amount computed, the new free tail is merged with a free last block, live blocks and bytes are untouched. |
| `HeapLayout.ExtraLeast` | kernel/memory/heap_core.c:259-269 | The amount asked for is the least whole number of growth steps that covers the need, or all that is left below the limit. |
| `HeapCore.Heap.TrimBlock` | kernel/memory/heap_core.c:302-321 | The block keeps the size needed and less than a minimal block more; what is cut off is one free block, merged with a free successor, and marked in debug mode. Every other block keeps its size, every live payload its bytes. |
| `HeapCore.Heap.Alloc` | kernel/memory/heap_core.c:323-373 | Returns a pointer exactly when the heap is well-formed and a free block fits or growth can provide one; the arena grows only if nothing fits, and by no more than needed. The map of live allocations gains one fresh payload of the size asked for, in a block less than a minimal block larger than its rounded size, marked in debug mode; no other payload changes; used and peak bytes follow. Failure keeps the heap. |
| `HeapCore.Heap.Calloc` | kernel/memory/heap_core.c:375-390 | The same for the exact product of count and size, overflow included, with a payload of zeros. |
| `HeapCore.Heap.PointerOffset` | kernel/memory/heap_core.c:392-404 | Names a block for live pointers only: foreign, interior, stale and misaligned pointers are rejected. |
| `HeapCore.Heap.Free` | kernel/memory/heap_core.c:406-451 | Succeeds exactly on NULL and on live pointers of a well-formed heap; exactly that allocation disappears, so a double free is refused and counted. In debug mode every payload byte of every free block still carries the mark of freed memory. |
| `HeapCore.Heap.Realloc` | kernel/memory/heap_core.c:453-541 | Succeeds exactly when shrinking, absorbing the next block, moving, or growing the tail can serve it; the pointer stays exactly if there is room in place, or nothing else fits and the block ends the arena. The common prefix survives, new bytes are marked in debug mode, every other payload is kept, nothing is wasted, and the peak counts both copies of a move; failure keeps the old allocation. |
| `HeapCore.Heap.GetStats` | kernel/memory/heap_core.c:543-573 | Used, free and overhead bytes partition the mapped arena, and `largest` is the largest free payload. |
| `HeapLayout.BytesConserved` | kernel/memory/heap_core.c:90-144 | The sizes of live and free blocks add up to the mapped arena, and requested bytes plus headers fit the live blocks. |
| `HeapLayout.FreeListInOrder` | kernel/memory/heap_core.c:173-207 | Following the links from the head lists every free block exactly once, in address order. |
| `HeapLayout.EmptyIsOneBlock` | kernel/memory/heap_core.c:406-431 | With nothing allocated, coalescing has left one free block spanning the arena. |
| `HeapValidate.WalkEnds` | kernel/memory/heap_core.c:90-144 | A pass that reaches the end of the arena with no link left over has established the invariant: the checks are sufficient. |
| `HeapValidate.SoundPasses` | kernel/memory/heap_core.c:90-144 | On a sound heap no check of the pass fails: the checks are necessary. |
| `HeapRuns.WellFormedSeparated` | kernel/memory/heap_core.c:90-144 | In every well-formed heap live payloads are 16-byte aligned, pairwise disjoint and inside the part of the arena that is mapped. |
| `HeapRuns.Execute` | kernel/memory/heap_core.c:358-541 | One call, or one client store, acts on the map from live allocations to bytes as its meaning says, fails only for want of room, moves and maps no more than it must, and leaves free memory marked in debug mode. |
| `HeapRuns.Run` | kernel/memory/heap_core.c:146-541 | Any sequence of calls, growth answers and client stores is a run of that map: nothing else is ever overwritten, moved or lost, and every allocation lies in the memory mapped at that time. No block comes to waste a minimal block, and free memory stays marked. |
| `HeapRuns.Lifetime` | kernel/memory/heap_core.c:146-541 | From `heap_core_init` on, along every run: no live block is a minimal block or more larger than its rounded request, and in debug mode every free payload byte reads 0xdd, so that a store through a stale pointer shows. |
| `HeapPages.State.Init` | kernel/memory/heap_pages.c:24-37 | Takes exactly nonempty page-aligned intervals inside the dynamic kernel range, past its test area, and only once. |
| `HeapPages.State.RollbackPage` | kernel/memory/heap_pages.c:46-70 | The frame is freed only after an unmapping that a second query has seen to be gone, whatever the unmap callback answered. The page and its frame are taken back unless a query, unmap or free was refused or an unmapping was reported and did not happen; each of these, and for a proper page nothing else, sets `corrupted`. |
| `HeapPages.State.Rollback` | kernel/memory/heap_pages.c:46-70 | Undone last page first; mappings and frames are exactly those before the growth unless a cleanup callback was refused or lied, which is exactly when the state becomes corrupted. |
| `HeapPages.State.RangeFree` | kernel/memory/heap_pages.c:84-96 | The preflight passes exactly when the whole new range was seen unmapped and no query was refused. |
| `HeapPages.State.GrowPage` | kernel/memory/heap_pages.c:97-122 | One more page in a fresh, aligned, zeroed frame of its own, or a complete retreat: denied frames, clearing or mappings alone never corrupt. |
| `HeapPages.State.Grow` | kernel/memory/heap_pages.c:72-125 | All or nothing over fallible callbacks: success backs every new page with its own clean frame and extends the prefix. Any failure of alloc, zero or map alone restores mappings and frames exactly; the state becomes corrupted only through a refused query, unmap or free, an unmapping that did not happen, or a frame no table can name, and through each of them once frames are at stake. A frame whose page may still be mapped is never freed; a corrupted state changes nothing ever again; a proper request on an unused range fails only through such a fault or a denial. |
| `HeapPages.Session` | kernel/memory/heap_pages.c:24-125 | Over any sequence of requests the backed prefix only grows, every page keeps its frame and sizes follow the answers. As long as no callback is at fault the state stays sound, however much is denied, and mappings and frames are exactly the old ones and those of the granted pages; if nothing is denied either, every proper request is granted. |
| `SchedCore.Core.Validate` | kernel/core/sched_core.c:44-136 | Accepts a core exactly when its pointers stand for a READY queue and a deadline-ordered sleep list without duplicates, each holding all tasks of its state, with one running task: the bounded walks and counts leave no room for cycles, sharing or foreign nodes. |
| `SchedValidate.ChecksSound` | kernel/core/sched_core.c:44-136 | What the scan and the two walks inspect implies the whole invariant. |
| `SchedValidate.ChecksComplete` | kernel/core/sched_core.c:44-136 | The invariant implies every check. |
| `SchedImage.RepUnique` | kernel/core/sched_core.c:44-136 | A core stands for at most one pair of queues. |
| `SchedCore.Core.Init` | kernel/core/sched_core.c:138-162 | Accepts exactly two distinct unowned nodes, a positive quantum and an uninitialized core, and shows the initial policy state. |
| `SchedCore.Core.ReadyPush` | kernel/core/sched_core.c:164-178 | The task is appended behind every READY task, and an idle processor is asked to reschedule. |
| `SchedCore.Core.Add` | kernel/core/sched_core.c:180-199 | Accepts exactly unowned nodes while a slot and an id are left; the queues change as the policy says. |
| `SchedCore.Core.Tick` | kernel/core/sched_core.c:201-225 | Refused exactly for a clock going backwards or a malformed core; otherwise the linked lists show the policy's tick. |
| `SchedCore.Core.Select` | kernel/core/sched_core.c:227-263 | Returns NULL exactly for a malformed core; otherwise the current task is the one the policy dispatches. |
| `SchedCore.Core.SleepCurrent` | kernel/core/sched_core.c:272-288 | Refused exactly when the task may not wait or the deadline would wrap; otherwise the policy's sleep. |
| `SchedCore.Core.BlockCurrent` | kernel/core/sched_core.c:290-298 | Succeeds exactly when the current task may wait, and parks it. |
| `SchedCore.Core.Wake` | kernel/core/sched_core.c:300-316 | Succeeds exactly for blocked or sleeping tasks of this core; the linked lists show the policy's wake, which `SchedLaws.RouseLaw` describes queue by queue. |
| `SchedCore.Core.ExitCurrent` | kernel/core/sched_core.c:318-326 | The current task becomes a zombie, under the same guard. |
| `SchedCore.Core.RemoveZombie` | kernel/core/sched_core.c:328-342 | Succeeds exactly for zombies that are not current; the node is unowned and its slot free again. |
| `SchedCore.Core.PreemptDisable` | kernel/core/sched_core.c:344-352 | Adds one level of nesting; refused exactly when the 32-bit depth is full, or the current task is not running. |
| `SchedCore.Core.PreemptEnable` | kernel/core/sched_core.c:354-362 | Undoes one level of nesting; refused exactly at depth zero, or when the current task is not running. |
| `SchedCore.Core.ReschedulePending` | kernel/core/sched_core.c:364-368 | True exactly if a reschedule is due and preemption is enabled. |
| `SchedInvariant.TickValid` | kernel/core/sched_core.c:201-225 | A tick keeps the validator's invariant, and an idle processor with READY tasks stays asked to reschedule. |
| `SchedInvariant.SelectValid` | kernel/core/sched_core.c:227-263 | So does every dispatch, forced or not. |
| `SchedInvariant.SleepValid` | kernel/core/sched_core.c:272-288 | So does going to sleep, with the list still ordered by deadline. |
| `SchedInvariant.ParkValid` | kernel/core/sched_core.c:290-326 | So do blocking and exiting. |
| `SchedInvariant.WakeValid` | kernel/core/sched_core.c:300-316 | So does waking. |
| `SchedInvariant.AddValid` | kernel/core/sched_core.c:180-199 | So does registering, under an id never used before. |
| `SchedInvariant.RemoveValid` | kernel/core/sched_core.c:328-342 | So does removing a zombie. |
| `SchedRuns.Run` | kernel/core/sched_core.c:138-368 | Every state reached by any interleaving of events keeps the invariant. |
| `SchedRuns.TickWakes` | kernel/core/sched_core.c:201-225 | A tick moves exactly the sleepers that are due, in deadline order, to the end of READY, and leaves the others asleep. |
| `SchedRuns.SleepersByDeadline` | kernel/core/sched_core.c:272-288 | A new sleeper queues behind every earlier or equal deadline and before every later one. |
| `SchedRuns.NoLostWakeup` | kernel/core/sched_core.c:201-316 | Over any events without an explicit wake, a sleeper is still asleep with its deadline exactly while the clock is short of it; otherwise some earlier event woke it, no sooner than its deadline. |
| `SchedRuns.BoundedWaiting` | kernel/core/sched_core.c:164-263 | While preemption is enabled, the task at position k of READY is running within (k + 1) quanta of timer interrupts, whatever else happens in between. |
| `SchedRuns.IdsNeverReused` | kernel/core/sched_core.c:180-199 | Over any run, an id given out before is held only by the task that already had it. |
| `SchedRuns.IdsGone` | kernel/core/sched_core.c:180-342 | Once no task holds an id, none ever will again. |
| `SchedLaws.RouseLaw` | kernel/core/sched_core.c:300-316 | Waking is refused exactly for tasks that neither block nor sleep. Otherwise the task is READY, behind the old queue, and no sleeper; the other sleepers keep their order, every other task is untouched, and a switch is asked for exactly if the processor is idle or its task no longer runs. |
| `SchedLaws.SwitchLaw` | kernel/core/sched_core.c:227-263 | A switch is refused exactly while preemption is off, or if nobody asks for it and the task runs. Otherwise the first of those waiting, the running task being the last of them, gets the processor with a full quantum; idle runs exactly when nobody waits; switches are counted. |
| `SchedLaws.HeadRuns` | kernel/core/sched_core.c:227-263 | With preemption on and READY not empty, a forced switch runs the head of READY. |
| `SchedLaws.ParkLaw` | kernel/core/sched_core.c:290-326 | A task that blocks or exits keeps everything but its state, is in neither queue, and nobody else is touched. |
| `SchedLaws.DozeLaw` | kernel/core/sched_core.c:272-288 | A task that sleeps is due exactly `delay` ticks from now; the deadline that would wrap is refused. |
| `SchedLaws.JoinLaw` | kernel/core/sched_core.c:180-199 | A new task joins the tail of READY with a full quantum and the next id; it is refused exactly without room or ids. |
| `SchedLaws.ReapLaw` | kernel/core/sched_core.c:328-342 | Reaping is refused except for a zombie that is not current, and then takes exactly it out of the table. |
| `SchedLaws.BracketLaw` | kernel/core/sched_core.c:344-362 | Opening a bracket adds a level unless the 32-bit depth is full, closing takes one unless none is open, and each undoes the other. |
| `SchedLaws.YieldsGoRound` | kernel/core/sched_core.c:227-263 | Round robin: n yields rotate the line of those taking turns by n, so that after as many yields as there are tasks everyone has run once and the queue is as it was. |
| `SchedLaws.EventMoves` | kernel/core/sched_core.c:164-342 | The life of a task: in every state, for every event, its state changes only along the edges running, ready, blocked, sleeping, zombie that the event may take, and it leaves only as a reaped zombie. |
| `SchedLaws.BlockedUntilRoused` | kernel/core/sched_core.c:290-316 | Over any events that do not rouse it, a blocked task stays blocked and never runs. |
| `SchedLaws.ZombieForGood` | kernel/core/sched_core.c:318-342 | Over any events whatever, an exited task never runs again: whoever bears its id is that task, as a zombie. |
| `SchedLaws.ParkedDoesNotRun` | kernel/core/sched_core.c:290-326 | From the moment it blocks or exits, the current task does not run again before it is roused, if ever. |
| `SchedLaws.RousedRuns` | kernel/core/sched_core.c:164-316 | A roused task runs within one quantum for each task ahead of it and one more, over any events that leave preemption on. |
| `SchedLaws.JoinedRuns` | kernel/core/sched_core.c:164-263 | So does a new one. |
| `SchedLaws.DozesUntilDue` | kernel/core/sched_core.c:201-288 | A task that sleeps for `delay` ticks and is not roused sleeps exactly until the clock gets there. |
| `SchedLaws.AccountsBalance` | kernel/core/sched_core.c:201-225 | Over any run the tick counter has grown by the ticks taken, and each task's account by exactly those that found it running, up to the 64-bit limit. |
| `SchedLaws.FullQuantum` | kernel/core/sched_core.c:201-263 | Until its quantum is used up nobody but the running task itself can end its turn, and one tick takes exactly one from what is left. |
| `SchedLaws.TurnEnds` | kernel/core/sched_core.c:201-263 | At the tick that uses it up the head of READY takes over. |
| `SchedLaws.RunsWhileHeld` | kernel/core/sched_core.c:227-362 | Between its preemption brackets a task runs on, whatever happens, until it closes the last one. |
| `SchedSession.Drive` | kernel/core/sched_core.c:138-368 | A core driven by any events stays well-formed and shows exactly the policy's run, event by event: each event is the next one of that run, or an addition the core refuses for want of a node, because the node has an owner, or for want of room; what was running after each event, and in which state, is what the policy says. |
| `SchedSession.Serve` | kernel/core/sched_core.c:164-263 | Bounded waiting of the linked lists themselves: the task at position k is the core's current task, in state RUNNING, within (k + 1) quanta of timer events. |
| `SchedSession.Awaken` | kernel/core/sched_core.c:300-316 | A core that wakes a task is running it, in state RUNNING, within one quantum for each task ahead of it and one more. |
| `SchedSession.Suspend` | kernel/core/sched_core.c:290-298 | A core whose current task blocks is not running it after any later event, unless somebody rouses it. |
| `SchedSession.FreshGood` | kernel/core/sched_core.c:138-162 | A fresh core is at the start of the bootstrap task's first turn, with a full quantum, nobody waiting and empty accounts. |
| `SchedSession.Lifetime` | kernel/core/sched_core.c:138-368 | From `sched_core_init` on: a core it accepts goes through the policy's run from the fresh state, whatever events follow; a refused one is untouched. |
| `MemoryMap.AlignUp` | kernel/memory/memory_helpers.c:3-10 | Fails exactly where the 64-bit sum would wrap; otherwise the least page boundary at or above. |
| `MemoryMap.Map.Add` | kernel/memory/memory_map.c:19-62 | Takes a region exactly if the map stays sorted, exclusive and summable in 64 bits; refusal changes nothing. |
| `PmmInit.UsableSize` | kernel/memory/pmm_core.c:24-82 | Exclusive regions share no frame, so the usable bytes counted are the usable frames there are. |
| `PmmInit.PlanUnique` | kernel/memory/pmm_core.c:24-82 | A memory map has at most one plan. |
| `PmmInit.MakePlan` | kernel/memory/pmm_core.c:24-82 | A plan is found exactly when some usable region has room for both bitmaps past page zero, and it is the first such. |
| `PmmInit.PlanStorage` | kernel/memory/pmm_core.c:24-82 | The storage is whole pages of usable memory, not page zero, and big enough for a bit per frame. |
| `PmmInit.Init` | kernel/memory/pmm_core.c:132-173 | Succeeds exactly once with the map's own plan, and starts with exactly the usable frames minus page zero and the bitmaps. |
| `PmmCore.Pmm.FindRun` | kernel/memory/pmm_core.c:175-191 | The lowest run of free frames at or after the start, or none exists there. |
| `PmmCore.Pmm.AllocPages` | kernel/memory/pmm_core.c:193-215 | Next fit, and complete: succeeds exactly when some run of free frames is long enough; the run is the lowest from the cursor on, or the lowest of all if none is there; exactly that run leaves the free frames, and the cursor goes on behind it. |
| `PmmCore.Pmm.FreePages` | kernel/memory/pmm_core.c:217-235 | Succeeds exactly when every frame of the range is held, and then frees all of them; otherwise nothing changes. |
| `PmmCore.Pmm.ReserveRange` | kernel/memory/pmm_core.c:101-130 | Fails, changing nothing, if any touched frame is held; otherwise all of them are gone for good. |
| `PmmCore.Pmm.PinPage` | kernel/memory/pmm_core.c:237-248 | Succeeds exactly on held frames, which stay used and can never be freed. |
| `PmmCore.Pmm.IsAllocatedPage` | kernel/memory/pmm_core.c:250-257 | True exactly of held frames at page boundaries. |
| `PmmRuns.Execute` | kernel/memory/pmm_core.c:101-248 | One call answers exactly when grantable and moves frames between free, held and lost as answered. |
| `PmmRuns.NeverAgain` | kernel/memory/pmm_core.c:101-248 | Over any run, a frame outside circulation at some point is in no run handed out from there on. |
| `PmmRuns.LostForever` | kernel/memory/pmm_core.c:101-248 | What a reservation or a pin takes is disjoint from everything handed out later. |
| `PmmRuns.GivenBack` | kernel/memory/pmm_core.c:193-235 | No frame has two owners: between two calls that hand it out, one call returned it. |
| `PmmRuns.Session` | kernel/memory/pmm_core.c:101-248 | The replies and states of any sequence of calls form such a history. |
| `PmmRuns.Lifetime` | kernel/memory/pmm_core.c:132-248 | From boot on, every run handed out is usable memory, never page zero and never the allocator's own bitmaps. |
| `PageTable.SignExtension` | kernel/memory/memory_helpers.c:19-23 | The bits of a canonical address above its indices repeat bit 47. |
| `PageTable.PathDetermines` | kernel/memory/memory_helpers.c:32-38 | Four 9-bit indices determine a canonical page. |
| `PageMeaning.TranslationMeans` | kernel/memory/vmm_core.c:50-155 | On any contents, an address is answered exactly when it is canonical and a chain of distinct reachable tables, each entry taken at nine bits of the address, leads from the root to its end; the answer is the last entry's page at the address's offset, writable and user exactly if every entry of the chain is, and not executable exactly if some entry says so. |
| `PageMeaning.MappedAllowed` | kernel/memory/vmm_core.c:27-48 | What is mapped lies below the physical limit, at a multiple of its size but for the caching bit, and uses NX only if it is enabled. |
| `PageMeaning.PageIsStraight` | kernel/memory/vmm_core.c:122-155 | A page of 4 KiB, 2 MiB or 1 GiB is one straight piece of memory: every canonical address of it is mapped with the same size and rights, at the same distance from its physical address, whose offset is the address's own. |
| `VmmTree.TreeWalk` | kernel/memory/vmm_core.c:50-98 | On tables that form a tree the cycle check never fires: the checked walk is the plain descent. |
| `VmmTree.LeafStore` | kernel/memory/vmm_core.c:189-253 | A store to a last-level entry (lines 189-193, 240 and 253) keeps the tree and changes the walk and translation of exactly one 4 KiB page, for every address. |
| `VmmTree.Private` | kernel/memory/vmm_core.c:194-223 | Whatever is written to tables that no table links to, no address translates differently. |
| `VmmChain.PublishTree` | kernel/memory/vmm_core.c:218-225 | Linking the finished chain keeps the tree, each new table at its place. |
| `VmmChain.PublishTranslate` | kernel/memory/vmm_core.c:218-225 | The one publishing store changes the translation of exactly one page, and takes no right from any walk. |
| `VmmCore.AddressSpace.Init` | kernel/memory/vmm_core.c:100-120 | Accepts exactly 32 to 52 physical bits and a readable root below that limit. |
| `VmmCore.AddressSpace.Walk` | kernel/memory/vmm_core.c:50-98 | The loop is the level-by-level walk of the tables in memory, on any contents. |
| `VmmCore.AddressSpace.Query` | kernel/memory/vmm_core.c:122-155 | Answers with the translation, large pages and absent entries included, on any contents; `PageMeaning.TranslationMeans` and `PageMeaning.PageIsStraight` say what that is. |
| `VmmCore.AddressSpace.Map` | kernel/memory/vmm_core.c:180-231 | One transaction: on success exactly one page gains exactly the translation asked for, and one entry of the existing tables changes; every store but the last leaves all translations as they were; on failure translations, linked tables, ledger and free frames are as before and no store was noticed; a proper request fails only for want of slots or usable frames. |
| `VmmCore.AddressSpace.Unmap` | kernel/memory/vmm_core.c:233-243 | Succeeds exactly on mapped 4 KiB pages, with a single store after which exactly that page is absent. |
| `VmmCore.AddressSpace.Protect` | kernel/memory/vmm_core.c:245-257 | Succeeds exactly when the flags are valid, the page is mapped and every parent allows them; with a single store exactly that page gets exactly those rights and keeps its frame. |
| `VmmCore.MapUndone` | kernel/memory/vmm_core.c:180-243 | Unmapping a page just mapped restores the translation of every address. |
| `VmmCore.ProtectUndone` | kernel/memory/vmm_core.c:245-257 | Giving a page its old rights back restores every translation: a change of rights touches nothing else. |
| `TableLedger.Tables.TableAllocate` | kernel/memory/user_vm.c:75-94 | A frame is acquired exactly when a slot and a free frame are left. |
| `TableLedger.Tables.TableRelease` | kernel/memory/user_vm.c:103-114 | Undoes the latest acquisition exactly, in the ledger and in the allocator. |
| `TableLedger.Tables.TableCommit` | kernel/memory/user_vm.c:116-126 | Only the pending mark of one frame goes. |
| `TableLedger.Tables.Rollback` | kernel/memory/vmm_core.c:171-178 | Returns a whole pile of acquisitions, latest first, to the ledger there was before. |
| `TableLedger.Tables.ClearTable` | kernel/memory/vmm_core.c:208-214 | Zeroes a private table; not one of its stores touches a table in use. |
| `UserVm.Vm.Create` | kernel/memory/user_vm.c:136-182 | A new process owns one frame, its root: entries 256 to 511 are the kernel's own without USER, and nothing is mapped in the user half; only a proper kernel space is taken; failure takes no frame, and happens on a proper one only if no frame can be a root. |
| `UserVm.Vm.QueryLocked` | kernel/memory/user_vm.c:184-211 | On any contents whatever, answers only what tables, ledger and allocator agree on. |
| `UserVm.Vm.QueryLive` | kernel/memory/user_vm.c:213-220 | On a live process every user address is answered with its translation. |
| `UserVm.Vm.AllocPage` | kernel/memory/user_vm.c:222-259 | Exactly one page appears, zeroed, with the rights asked for; all frames come out of the free ones and the counts grow by the page and its missing tables; failure leaves translations, bytes, ledgers and free frames, and a proper request fails only for want of slots or usable frames; the kernel half of the root is untouched. |
| `UserVm.Vm.UnmapPage` | kernel/memory/user_vm.c:261-277 | Succeeds exactly on mapped pages; exactly that page goes and exactly its frame is free again; the kernel half of the root is untouched. |
| `UserVm.Vm.ProtectPage` | kernel/memory/user_vm.c:279-288 | Succeeds exactly on mapped pages with valid rights: on a live process no parent ever stands in the way; the kernel half of the root is untouched. |
| `UserCopySpec.NoAlias` | kernel/memory/user_vm.c:222-259 | Two user addresses never share a physical byte. |
| `UserVm.Vm.CopyPreflight` | kernel/memory/user_vm.c:295-333 | Passes exactly when every byte of the range is a user byte with the access asked for; the chunk limit never rejects a permitted copy. |
| `UserVm.Vm.CopyFrom` | kernel/memory/user_vm.c:335-353 | Delivers exactly the bytes of a readable range, or nothing. |
| `UserVm.Vm.CopyTo` | kernel/memory/user_vm.c:355-373 | Writes exactly a writable range and no other user byte, or nothing. |
| `UserCopySpec.CopyRoundTrip` | kernel/memory/user_vm.c:335-373 | Reading back a range just written returns what was written. |
| `UserVm.Vm.OwnershipValid` | kernel/memory/user_vm.c:375-416 | On any ready state, true exactly if the ledgers pass the audit. |
| `UserVmSpec.AuditSound` | kernel/memory/user_vm.c:375-416 | Ledgers that pass hold distinct frames, all held, none both data and table, and the counts are their numbers: they can be released. |
| `UserVm.Vm.LiveAudited` | kernel/memory/user_vm.c:375-416 | A process reached through these operations always passes the audit. |
| `UserVm.Vm.Reclaim` | kernel/memory/user_vm.c:418-444 | Destruction from any state: succeeds exactly if ready, inactive and audited, and frees every frame exactly once. |
| `UserVm.Vm.Destroy` | kernel/memory/user_vm.c:418-444 | An inactive live process can always be destroyed, and every frame it owned is free again. |
| `UserCells.GuardIsCells` | kernel/memory/user_vm.c:295-333 | The page-wise check of a copy is the byte-wise one. |
| `UserVmRuns.Execute` | kernel/memory/user_vm.c:222-373 | One call acts on the picture the process has of itself, one cell (nothing, or a byte with rights) per user address, and on no other cell. |
| `UserVmRuns.Session` | kernel/memory/user_vm.c:222-373 | Any sequence of calls, interleaved with other users of the allocator, is a history of that picture; frames of the process and of others stay apart, and the kernel half of the root never changes. |
| `UserVmRuns.Lifetime` | kernel/memory/user_vm.c:136-444 | From creation through any calls to destruction no frame leaks: what is free at the end, with what others took, is what was free at the start. At every moment the root shows the kernel's upper half, without USER. |
| `UserVmRuns.KernelOutOfReach` | kernel/memory/user_vm.c:166-168 | Whatever tables the processor reaches from such a root, no address above the user half is mapped for user mode. |
| `Elf.Validate` | kernel/core/elf.c:13-90 | Accepts an image exactly when its header, segments, page separation, page budget and entry point are acceptable, and the plan lists the loadable segments in order. |
| `ElfFormat.NumberReads` | kernel/core/elf.c:4-11 | A number of n bytes, lowest first, is read as the number written, and only as that. |
| `ElfFormat.FileTaken` | kernel/core/elf.c:13-31 | A file header is taken exactly if the file is at most 1 MiB and has one to sixteen program headers, all behind the file header and inside the file; entry, place and count are read as written. |
| `ElfFormat.OtherKinds` | kernel/core/elf.c:34-43 | Empty, note, program-header and stack headers are passed over, unless the stack is to be executable; any other kind but a loadable one is refused. |
| `ElfFormat.LoadGranted` | kernel/core/elf.c:44-77 | A loadable header is taken exactly if its bytes are in the file, its memory is the user's and clear of stack and guard, file and memory agree modulo page and alignment, a power of two, and its flags are R, RX or RW; the segment then has its bytes and addresses, the whole pages around them, and is writable exactly by the W bit and executable exactly by the X bit. |
| `ElfFormat.LoadsInOrder` | kernel/core/elf.c:32-84 | The plan lists the segments of all loadable headers, in the order of the headers. |
| `Elf.PlanSound` | kernel/core/elf.c:13-90 | In a plan segments lie inside the image and the user range, share no page, are never writable and executable, leave room for the stack, and one executable segment holds the entry point. |
| `Elf.Doomed` | kernel/core/elf.c:66-75 | What the first headers rule out no later header repairs, so stopping early is right. |
| `ElfBudget.Neighbour` | kernel/memory/vmm_core.c:180-231 | Next to a mapped page of the same 2 MiB region no table is missing. |
| `ElfLoad.CopySegment` | kernel/core/elf_load.c:28-35 | Copying a segment into its freshly mapped pages never fails. |
| `ElfLoad.ClosePages` | kernel/core/elf_load.c:36-38 | Neither does giving the pages their final rights. |
| `ElfLoad.Load` | kernel/core/elf_load.c:6-56 | On success every user address shows exactly the image, the stack and the argument, and nothing else, under the kernel's upper half; on failure every frame is free again; an acceptable image with a short argument fails only for want of slots or usable frames, with the bound written out. |
| `ElfLoad.SegmentShown` | kernel/core/elf_load.c:23-39 | A segment's pages hold its file bytes and zeros around them, with the rights it asked for. |
| `ElfLoad.GuardPage` | kernel/core/elf_load.c:40-43 | The page below the stack is missing in every loaded process. |
| `ElfLoad.EntryPoint` | kernel/core/elf.c:76-87 | The first byte executed is a byte of the file that may be executed and not written. |
| `ElfLoad.ArgumentLength` | kernel/core/elf_load.c:15-18 | The length of the C string, or the limit when it is too long. |
| `Fat32Import.Importer.ReadSector` | kernel/fs/fat32.c:12-17 | Every read is counted and recorded; one succeeds exactly within the budget on a sector the device can read. |
| `Fat32Import.Importer.FatEntry` | kernel/fs/fat32.c:18-34 | The cached lookup agrees with the table on the disk, and with its mirror; it fails only beyond the budget or where the table cannot be had. |
| `Fat32Import.Importer.Claim` | kernel/fs/fat32.c:39-47 | A cluster is claimed at most once, by the node whose chain leads to it and needs it; it is refused only if it is invalid, taken, or beyond the limit of 16384. |
| `Fat32Import.Importer.ReadFile` | kernel/fs/fat32.c:77-100 | On success the buffer holds the bytes of the file's chain, which ends exactly where the file does; failure names a refused allocation or a broken rule. |
| `Fat32Import.Importer.AddNode` | kernel/fs/fat32.c:132-146 | The node is the one its directory entry describes, as `Fat32Format.EntryParses` reads it; it is refused only if all 128 nodes are used, or its path is too long, malformed or taken. |
| `Fat32Format.NameReads` | kernel/fs/fat32.c:52-76 | Every nonempty base of up to eight and extension of up to three permitted characters, padded with spaces, is read as the two in upper case with a dot before a nonempty extension. |
| `Fat32Format.NameWritten` | kernel/fs/fat32.c:52-76 | Nothing else is read as a name. |
| `Fat32Format.NamesCollide` | kernel/fs/fat32.c:52-76 | Two entries get the same name exactly if their raw names agree up to the case of letters. |
| `Fat32Format.NameChars` | kernel/fs/fat32.c:60-66 | The permitted characters are the visible ones without the reserved. |
| `Fat32Format.EntryParses` | kernel/fs/fat32.c:113-135 | An entry written with a name, attributes, first cluster and size parses as that file or directory, whatever its other bytes are. |
| `Fat32Format.EntryWritten` | kernel/fs/fat32.c:113-135 | Whatever parses as a file or directory was written so. |
| `Fat32Format.DotParses` | kernel/fs/fat32.c:121-131 | The two dot entries are passed over exactly if they are directories without size that lead to the directory and its parent; otherwise they spoil the volume. |
| `Fat32Format.PassedOver` | kernel/fs/fat32.c:113-120 | Only a zero byte ends a directory; deleted entries, parts of long names and labels are passed over. |
| `Fat32Format.PathsAre` | kernel/fs/vfs.c:8-39 | A path is valid exactly if it is the root or a list of proper components, each after its slash, in fewer than 128 bytes. |
| `Fat32Import.Importer.Directory` | kernel/fs/fat32.c:101-159 | The recursive walk, bounded by depth and claims, leaves a directory whose children are exactly its entries up to the end mark, and everything below complete; its reads stay within what the clusters it claimed account for. |
| `Fat32Import.Importer.Discard` | kernel/fs/fat32.c:160-172 | Every buffer and the bitmap are freed exactly once; what was allocated before the import is all that is left. |
| `Fat32Import.Importer.ReadGeometry` | kernel/fs/fat32.c:182-202 | A boot sector is taken exactly when it is acceptable, and gives the geometry it describes. |
| `Fat32Volume.BootGeometryOk` | kernel/fs/fat32.c:182-202 | Every accepted geometry has its areas in order inside the device and a table entry for every cluster. |
| `Fat32Format.BootReads` | kernel/fs/fat32.c:182-202 | The geometry read is the one the volume was formatted with; as many clusters are counted as fit behind the tables, and not one more. |
| `Fat32Format.BootTaken` | kernel/fs/fat32.c:182-204 | Whatever the other bytes are, a boot sector is taken exactly if it names a FAT32 volume by cluster count, with a permitted cluster size, one or two tables long enough, an existing table in use, and a root on the volume, inside the device. |
| `Fat32Format.LinkReads` | kernel/fs/fat32.c:18-34 | The entry of a cluster is the 32-bit link stored for it, without its top four bits. |
| `Fat32Format.LaidOut` | kernel/fs/fat32.c:23-51 | Clusters, counted from two, lie one behind the other from the start of the data area, and so do the copies of the table. |
| `Fat32Import.Importer.Mount` | kernel/fs/fat32.c:180-204 | Succeeds exactly on volumes whose boot sector and first two table entries are acceptable. |
| `Fat32Import.Importer.Import` | kernel/fs/fat32.c:173-219 | All or nothing: success gives the complete tree of the volume on the disk, each cluster in at most one node, children exactly the directory entries, file bytes exactly the chain's, all limits kept, no read outside the volume and at most 65536 of them; failure frees everything, after at most one read more. With a willing allocator and a tree small enough for the read budget, an acceptable boot sector is imported if and only if nothing in the volume breaks a rule. |
| `Fat32Verdict.Embed` | kernel/fs/fat32.c:101-159 | Every node of any part of the tree that is read in order is a node of every complete tree, at the same path, with the same entry, and its chain so far begins the complete chain. |
| `Fat32Verdict.NeverImported` | kernel/fs/fat32.c:77-159 | A place in such a part that breaks a rule (an unreadable sector that must be read, a missing table entry, an invalid, shared or superfluous cluster, a bad entry, name, size or depth, or one node, cluster or byte too many) excludes every complete tree. |
| `Fat32Verdict.OneTree` | kernel/fs/fat32.c:173-219 | A volume has one tree: two successful imports agree on every path, size, chain and byte. |
| `Fat32Tree.ChainsApart` | kernel/fs/fat32.c:39-47 | No two nodes of an imported tree share a cluster. |
| `Fat32Tree.OneChildPerSlot` | kernel/fs/fat32.c:101-159 | A directory entry gives at most one node. |
| `Checksum.NetChecksum` | kernel/net/ipv4.c:32-43 | The folding loop computes the complement of the one's-complement sum of the 16-bit words, for any length. |
| `Checksum.Completes` | kernel/net/ipv4.c:32-43 | With the checksum stored in a zeroed field the whole sums to zero; so it does with all ones stored for zero. |
| `Checksum.WordErrorDetected` | kernel/net/ipv4.c:32-43 | A packet that passed no longer passes once any one of its words has changed, unless zero and all ones were exchanged. |
| `Packets.EthernetRoundTrip` | kernel/net/ethernet.c:11-31 | Decoding undoes building, with trailing bytes as payload. |
| `Packets.EthernetBuild` | kernel/net/ethernet.c:20-31 | Writes exactly the frame and nothing behind it, or nothing at all. |
| `Packets.Ipv4RoundTrip` | kernel/net/ipv4.c:44-70 | Decoding undoes building, checksum included, through any padding. |
| `Packets.Ipv4Build` | kernel/net/ipv4.c:56-70 | Succeeds exactly on valid addresses and room; writes exactly the packet, or nothing. |
| `Packets.Ipv4Receive` | kernel/net/ipv4.c:44-55 | The in-place check through the checksum loop is the declarative decoder. |
| `Packets.UdpRoundTrip` | kernel/net/udp.c:12-38 | Decoding undoes building, with the pseudo-header checksum and all ones sent for zero. |
| `Packets.UdpBuild` | kernel/net/udp.c:26-38 | Succeeds exactly on valid ports and room; writes exactly the segment, or nothing. |
| `Packets.UdpReceive` | kernel/net/udp.c:12-25 | The check through the checksum loop is the declarative decoder. |
| `Packets.StackRoundTrip` | kernel/net/udp.c:12-38 | What is sent through UDP, IPv4 and Ethernet comes out again, whatever padding the wire added. |
| `PacketChecks.EthernetAccepts` | kernel/net/ethernet.c:11-19 | A frame is decoded to f exactly if it is the frame built from f by a station that is no group. |
| `PacketChecks.Ipv4Accepts` | kernel/net/ipv4.c:44-55 | Every unfragmented packet without options, with hops left and a good checksum, is accepted with exactly its addresses, protocol and payload, through any padding. |
| `PacketChecks.Ipv4OnlyAccepts` | kernel/net/ipv4.c:44-55 | Nothing else is accepted. |
| `PacketChecks.Ipv4Garbled` | kernel/net/ipv4.c:44-55 | An accepted packet is refused once any one word of its header has changed, unless zero and all ones were exchanged. |
| `PacketChecks.UdpAccepts` | kernel/net/udp.c:12-25 | A segment is accepted exactly if both ports are given, its length is the packet's, and its checksum is right or left out. |
| `PacketChecks.UdpGarbled` | kernel/net/udp.c:12-25 | A segment sent with a checksum is refused once any one other word has changed, unless zero and all ones were exchanged. |
| `Dns.CheckName` | kernel/net/dns.c:10-21 | The one-pass scan of a C string accepts exactly names of nonempty labels, each of at most 63 letters, digits, hyphens and underscores, with at most 253 bytes in all. |
| `Dns.ReadName` | kernel/net/dns.c:22-59 | The loop is the recursive decoder of compressed names. |
| `Dns.DecodedBounds` | kernel/net/dns.c:22-59 | A decoded name fits its buffer, is in lower case, and what it consumed lies inside the message. |
| `Dns.CyclesRejected` | kernel/net/dns.c:22-59 | Every message in which a name runs into a cycle of pointers is rejected. |
| `Dns.ReadExactly` | kernel/net/dns.c:22-59 | In every message, a name whose labels are in order is read exactly when its labels, pointers and end take at most 128 steps together and it fits its buffer; and then exactly its labels are read, in lower case, and its extent reported. |
| `Dns.OnlySpelled` | kernel/net/dns.c:22-59 | Nothing else is read as a name. |
| `Dns.BudgetIsTight` | kernel/net/dns.c:22-59 | The budget of 128 hops is exactly enough for valid names: with one less a valid 127-label name is lost. |
| `Dns.BuildQuery` | kernel/net/dns.c:60-77 | Succeeds exactly on valid names and room; writes exactly the query, or nothing. |
| `Dns.QueryRoundTrip` | kernel/net/dns.c:22-77 | The question of a built query decodes to the name in lower case, for every valid name. |
| `DnsExchange.QueryAsks` | kernel/net/dns.c:60-77 | A query has its identifier, asks for recursion and nothing else, has one question and no records, and its question is the one a response must repeat. |
| `DnsReply.Chase` | kernel/net/dns.c:123-138 | An address is found exactly when some name down the chain of aliases has one, although the chase stops after a bounded number of hops. |
| `DnsReply.BudgetSuffices` | kernel/net/dns.c:123-138 | If the first names of a chain, one more than there are records, have no address, no name of the chain has one. |
| `DnsReply.ReadRecord` | kernel/net/dns.c:102-121 | The in-place record parser is the declarative one. |
| `DnsReply.AnswerCount` | kernel/net/dns.c:100-122 | A well-formed reply keeps exactly as many answers as it announces. |
| `DnsReply.DecodeReply` | kernel/net/dns.c:83-139 | A reply resolves exactly when it is well-formed and its answers lead from the name asked for to an address. |
| `DnsExchange.ResponseReads` | kernel/net/dns.c:83-122 | A response that carries any list of up to sixteen addresses and aliases, written out in full, gives exactly these records, in order, to the query it answers. |
| `DnsExchange.WireParses` | kernel/net/dns.c:102-121 | A record is parsed as what was sent, wherever it stands in the message, and the next one begins behind it. |
| `DnsExchange.AnswersOneQuery` | kernel/net/dns.c:83-99 | A message answers one query at most: one identifier, and one name up to case. |
| `DnsExchange.NotForOthers` | kernel/net/dns.c:83-99 | A reply sent for one identifier and name never answers a query with another. |
| `DnsExchange.FlagsTaken` | kernel/net/dns.c:87-91 | A reply is considered exactly if its response bit is set, opcode, truncation, reserved and error bits are clear, and it has the identifier, one question and few enough records. |
| `DnsExchange.LoweredLaw` | kernel/net/dns.c:9 | Two names are the same in lower case exactly if they agree letter by letter up to case; lowering a name changes only the case of its letters, and leaves none in upper case. |
| `DnsExchange.AliasResolves` | kernel/net/dns.c:123-138 | A name with an alias, and an address for what it stands for, in either order, resolves to that address. |
| `DnsExchange.ResolvesOnce` | kernel/net/dns.c:123-138 | A name resolves to one address at most. |
| `DnsReply.ReplyRoundTrip` | kernel/net/dns.c:22-139 | A minimal reply whose answer points at the question is understood if and only if the name has at most 126 labels. |
| `DnsReply.LongestRefused` | kernel/net/dns.c:22-139 | The failing input: a valid 127-label name, whose query is built and whose compressed reply is refused. |

## Findings

- A name of 127 one-character labels is valid and its query is built, but a reply that answers it with a compression
  pointer, as section 4.1.4 of RFC 1035 provides, is refused: the pointer costs the one hop the budget of 128
  (kernel/net/dns.c:22-59) does not have to spare. `DnsReply.LongestRefused` gives the input and
  `DnsReply.ReplyRoundTrip` the exact condition: the reply is understood if and only if the name has at most 126 labels.
  With more than one pointer the limit is lower still: by `Dns.ReadExactly` every pointer takes one of the 128 steps.

## Left out

- NULL pointer checks and invalid enumeration values; the snapshot functions, which copy counters and states out of a core,
  and `sched_state_name`, which names a state.
- The rest of the kernel: drivers, interrupt and context-switch code, system calls, processes, the virtual file system,
  pipes, terminals, ARP, DHCP, TCP, and the kernel's own address space (`vmm.c`, `hhdm.c`).
- `net_ip_parse`, `net_mask_valid`, `sched_ms_to_ticks` and the allocator statistics of `pmm_core_get_stats`.
- Heap cookies: a header's stamp is the offset it was written for; the exclusive-or with the address is not modelled. A
  header that payload bytes overwrite counts as destroyed.
- Page-table entries are records of their fields rather than 64-bit words; a store replaces a whole entry at once.
- The direct map is the set `hidden` of frames it does not reach; TLB invalidation has no effect in the model.
- Clearing a table is 512 entry stores in ascending order; the order within `memset` is not promised by C.
- Table memory and user bytes are separate memories: a page frame is never read as a table.
- VmmCore.AddressSpace.Map: stated for spaces whose tables form a tree with foreign tables shared read-only, which
  creation establishes and every operation keeps; walks and queries are stated for any contents. Shortage is necessary
  for a proper request to fail, not sufficient: which free frame the allocator offers first is not fixed.
- VmmCore.AddressSpace.Unmap: the same tree is required.
- VmmCore.AddressSpace.Protect: the same tree is required.
- UserVm.Vm.AllocPage: shortage is necessary for a proper request to fail, not sufficient, for the same reason.
- UserVm.Vm.Create: requires that the tables shared from the kernel half are not frames the allocator can hand out, which
  boot code outside this model arranges by pinning them.
- ElfLoad.Load: the bound on tables, three for every 2 MiB region touched, is an upper bound; an image may load with less.
- Fat32Import.Importer.Import: for trees whose clusters may take more than 65536 reads (each counted with all its sectors and
  a lookup in both tables) it is not stated which of them the read budget still admits.
- PmmInit.Init: stated for memory maps that `memory_map_add` can build; a map with overlapping usable regions, which no caller
  produces, is not covered.
- Concurrency: every operation is taken as running under its lock, as the callers in the repository do.
