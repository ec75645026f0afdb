# Models of FelineOS, with proofs

FelineOS is a small kernel. This project models the parts of it that keep state by hand, in the form
the code has (classes with fields, linked records, loops, arrays), proves each operation against a
function of the state before, and proves over those functions what the parts are for:

- `HeapModel.dfy`, `Heap.dfy`: `malloc` and `free`. The headers are records at addresses in the pages
  they describe; the abstract view is the list of headers with their payloads.
- `PagingModel.dfy`, `Paging.dfy`: i386 page tables in frames, reached through the recursive mapping,
  the array that the search for virtual memory looks at, and mapping ranges with rollback.
- `PhysMemModel.dfy`, `PhysMem.dfy`: the physical memory manager. Its headers are linked objects that
  live in chunks, and getting a new chunk takes a region out of the list that is being split. The
  number of headers in a chunk is a parameter.
- `MemModel.dfy`, `Mem.dfy`: `get_mem`, `free_mem` and `unmap_range` over both managers.
- `HeapOverMem.dfy`: the heap over `get_mem` and `free_mem`, beside other users of them.
- `SchedulerModel.dfy`, `Scheduler.dfy`, `LockHandOff.dfy`, `KVector.dfy`: the scheduler, as whole
  calls and as the steps inside them, and the vector that holds its tasks.
- `DeviceTree.dfy`: the walk over a flattened devicetree (section 5.4 of the Devicetree
  Specification), on any bytes and on the encodings of trees.
- `Itostr.dfy`: the two number printers. `BootPlacement.dfy`: where the first headers go at boot.

Each `...Model` module has the state as a value, the operations as functions, and the theorems; the
module beside it has the class whose methods compute those functions in place. `dafny verify
dfyconfig.toml` checks everything.

## What the code does that a reader might not expect

- A range of virtual memory that ends exactly at 4 GiB is not checked at all: the last page needed
  wraps to zero. `get_mem` aborts the kernel in just these cases, when nothing else fits
  (`PagingModel.SearchIsFirstFit`, `MemModel.GetMemOutcomes`).
- `get_mem` of 0 bytes maps nothing and then fills a page, which faults; reserving 0 bytes of physical
  memory returns a page it does not reserve (`PhysMemModel.ReturnedPageIsReserved`).
- `get_mem` without virtual memory left loses the physical block (`MemModel.GetMemFails`).
- Reserving physical memory at an address takes it from the start of the header found
  (`PhysMemModel.GetAtCovers`).
- The request for one byte with which the pool of headers grows rounds down to no pages, so that all
  of the first free region is taken.
- `malloc` of more than 4080 bytes that no free header fits adds pages until memory ends.
- The count of how often a task was scheduled wraps, and then another task can wait forever
  (`SchedulerModel.WrapStarves`).
- A task that ends when no other is runnable stays runnable (`SchedulerModel.EndEnds`).
- The printer that makes a string never returns for some large numbers, among them all those of
  sixteen hexadecimal digits (`Itostr.HexHangs`); and no printer makes letters of digits over nine.
- Zero prints as `min_width` zeros, which is no digit at all for a width of 0.
- The place found for the headers at boot need not fit into the available memory
  (`BootPlacement.FoundPastTheEnd`).
- A timer tick that adds a task in the middle of the scheduler would wait forever
  (`LockHandOff.StuckExactly`); what prevents it is only that the real lock masks interrupts.

## Model

| member | source | states |
|---|---|---|
| `HeapModel.EveryRunIsSafe` | system/libc/stdlib/malloc_free.cpp:115-219 | After any sequence of malloc and free: the pages obtained and not yet returned are exactly the pages that the headers tile, every such page holds a live block, the list is empty exactly when nothing is live, and live blocks never overlap |
| `HeapModel.After` | system/libc/stdlib/malloc_free.cpp:115-219 | The whole invariant holds after every run: tiled pages, no two free neighbours in a page, no wholly free page, and every page returned once, with 4096 bytes |
| `HeapModel.PageIsTiled` | system/libc/stdlib/malloc_free.cpp:31-102 | The headers of one page, with 16 bytes each for the header itself, sum to exactly 4096 bytes, and only the first one starts an allocation |
| `HeapModel.Disjoint` | system/libc/stdlib/malloc_free.cpp:31-58 | Two different headers and their payloads never overlap |
| `HeapModel.LiveBlocksAreSeparate` | system/libc/stdlib/malloc_free.cpp:115-135 | A live payload is 16-aligned, clear of every header and every other live payload, and inside one page that is held |
| `HeapModel.EmptyIffNothingLive` | system/libc/stdlib/malloc_free.cpp:104-113 | The list of headers is empty exactly when no block is live |
| `HeapModel.MallocKeepsInv` | system/libc/stdlib/malloc_free.cpp:115-135 | malloc keeps the heap invariant, whether it takes a header that fits or a fresh page |
| `HeapModel.MallocAddsOneBlock` | system/libc/stdlib/malloc_free.cpp:115-135 | malloc adds exactly one live block, at an address that was not live, and changes no other; its length is the request up to the next multiple of 16, or all of the header found if that is at most 16 longer |
| `HeapModel.FreeKeepsInv` | system/libc/stdlib/malloc_free.cpp:137-219 | free keeps the heap invariant through both merges and the return of the page |
| `HeapModel.FreeRemovesOneBlock` | system/libc/stdlib/malloc_free.cpp:137-182 | free removes exactly the block freed |
| `HeapModel.FreeRemovesPointed` | system/libc/stdlib/malloc_free.cpp:147-182 | For a pointer to a live block the search of free finds that block, and exactly it goes |
| `HeapModel.FirstBlock` | system/libc/stdlib/malloc_free.cpp:31-219 | The instance in numbers: 100 bytes of the page at 0x1000 are a block of 112 at 0x1010 with a free header at 0x1080, and freeing it returns 4096 bytes |
| `HeapModel.FreeUndoesMalloc` | system/libc/stdlib/malloc_free.cpp:115-219 | free of what malloc just returned restores the list of headers exactly; a page obtained for it is returned whole |
| `HeapOverMem.EveryRunSharesNothing` | system/libc/stdlib/malloc_free.cpp:115-219 | In every run of malloc and free over get_mem and free_mem, with other users of them in between, no two live blocks of the heap share a byte of physical memory, and all their bytes are mapped |
| `HeapOverMem.After` | system/libc/stdlib/malloc_free.cpp:62-113 | In every such run the pages the heap holds are exactly the live allocations that are not the others', each of one page, and heap and memory keep their invariants |
| `HeapOverMem.StepKeeps` | system/libc/stdlib/malloc_free.cpp:115-219 | Every call keeps the two together; a malloc that works adds one block, new and large enough; free works exactly for the null pointer and pointers to live blocks, and takes out just that block; other calls do not touch the heap |
| `HeapOverMem.MallocKeeps` | system/libc/stdlib/malloc_free.cpp:62-135 | malloc stops the kernel exactly when nothing fits and the size is over 4080 or get_mem does not succeed |
| `HeapOverMem.GotPageIsFresh` | system/libc/stdlib/malloc_free.cpp:62-102 | A page from get_mem is one that no header of the heap is on and no live allocation is at |
| `HeapOverMem.FreeKeeps` | system/libc/stdlib/malloc_free.cpp:104-113 | The page that free returns is a live allocation of just its length, and free_mem succeeds |
| `Heap.Allocator.SplitHeader` | system/libc/stdlib/malloc_free.cpp:31-58 | Splitting relinks the records into the list with the header cut in two; it refuses exactly used or too short headers |
| `Heap.Allocator.AllocateMoreMem` | system/libc/stdlib/malloc_free.cpp:62-102 | A fresh page becomes one or two linked headers, and the rest of the list is not touched |
| `Heap.Allocator.Malloc` | system/libc/stdlib/malloc_free.cpp:115-135 | The loop over the records takes the first header that fits or extends the list by one page, and the pointer returned is to a new live block of the size asked for up to 16 bytes more; for a size over 4080 that no header fits it never succeeds |
| `Heap.Allocator.FreeAndMerge` | system/libc/stdlib/malloc_free.cpp:160-182 | The in-place merges of the records are the coalescing of the list on both sides |
| `Heap.Allocator.ReturnPage` | system/libc/stdlib/malloc_free.cpp:183-217 | Exactly a wholly free page is unlinked and returned, with 4096 bytes; the branch for headers longer than a page is never reached |
| `Heap.Allocator.Free` | system/libc/stdlib/malloc_free.cpp:137-219 | free succeeds exactly for the null pointer and pointers to a header in use, and then exactly that block is gone; otherwise the kernel aborts |
| `Paging.SelfMapReachesEntry` | system/kernel/arch/i386/virt_mem/paging.cpp:157-161 | With the recursive directory in place, a two-level walk of the computed addresses lands on exactly the table entry, and the directory entry, of any virtual address, without a fault |
| `Paging.StoreChangesOnePage` | system/kernel/arch/i386/virt_mem/paging.cpp:283-295 | Storing the table entry of a page below the window changes the mapping of that page only and keeps the directory recursive |
| `Paging.AddressSpace.Setup` | system/kernel/arch/i386/virt_mem/paging.cpp:478-553 | Setup makes every entry reachable through the self-map, maps exactly the kernel image, present, writeable and for the kernel only, and makes the search array agree with the tables |
| `Paging.KernelMapped` | system/kernel/arch/i386/virt_mem/paging.cpp:478-553 | The instance: a kernel in two pages at 0xF0100000 is mapped to the frames at 1 MiB |
| `Paging.AddressSpace.MapPage` | system/kernel/arch/i386/virt_mem/paging.cpp:255-300 | Maps exactly one page, or refuses a mapped one; the entry is present, writeable, not for users, cached with write-back, neither read nor written, and not global; tables and search array still agree |
| `Paging.AddressSpace.UnmapPage` | system/kernel/arch/i386/virt_mem/paging.cpp:418-434 | Unmaps exactly one page by clearing the present bit only, or says that it was not mapped; tables and search array still agree |
| `Paging.AddressSpace.FreeFromHere` | system/kernel/arch/i386/virt_mem/paging.cpp:203-225 | Says whether the window from the base is unmapped and finds the first page that is not; a range that ends exactly at 4 GiB counts as free |
| `Paging.AddressSpace.FindFreeVirtMem` | system/kernel/arch/i386/virt_mem/paging.cpp:232-251 | The search that jumps to the blocking page terminates and returns what a search of every page would |
| `PagingModel.SearchIsFirstFit` | system/kernel/arch/i386/virt_mem/paging.cpp:203-251 | The address returned is the start of unmapped pages exactly when the range does not end at 4 GiB, and no lower valid start from the second page up is skipped |
| `PagingModel.FullSpaceStillFound` | system/kernel/arch/i386/virt_mem/paging.cpp:207-218 | With every page mapped a search for two pages still succeeds, with an address inside the window of the page tables |
| `PagingModel.FitsIs` | system/kernel/arch/i386/virt_mem/paging.cpp:203-225 | A range fits where its pages, and one page more, are unmapped and below the window |
| `PagingModel.OnePageMore` | system/kernel/arch/i386/virt_mem/paging.cpp:214-224 | The instance: two free pages in front of a mapped one are not used for a range of two pages, and the next place is found |
| `Paging.AddressSpace.InternalMapRange` | system/kernel/arch/i386/virt_mem/paging.cpp:304-362 | Without overwriting all the pages of the range are mapped, or none are, after the rollback if need be |
| `Paging.AddressSpace.Rollback` | system/kernel/arch/i386/virt_mem/paging.cpp:337-352 | Unmapping backwards from the page that failed restores the mapping, and never meets an unmapped page |
| `Paging.AddressSpace.MapRange` | system/kernel/arch/i386/virt_mem/paging.cpp:365-381 | The loops over the tables compute the mapping with the lowest free range added |
| `PagingModel.MapRangeTranslates` | system/kernel/arch/i386/virt_mem/paging.cpp:365-381 | A successful mapping leaves every other translation alone, takes only pages that were unmapped, and translates byte i of the range to byte i of the physical one for all bytes exactly when length and page offset do not pass 4 GiB together |
| `PagingModel.MapRangePages` | system/kernel/arch/i386/virt_mem/paging.cpp:365-381 | Without that overflow the pages that are mapped, and were not, are exactly those that the bytes asked for are on |
| `PagingModel.UnmapUndoesMap` | system/kernel/arch/i386/virt_mem/paging.cpp:365-471 | For page-aligned addresses unmapping the length that was mapped restores the mapping exactly |
| `Paging.AddressSpace.AllMapped` | system/kernel/arch/i386/virt_mem/paging.cpp:439-448 | The first loop of unmap_range decides whether every page of the range is mapped |
| `Paging.AddressSpace.UnmapPages` | system/kernel/arch/i386/virt_mem/paging.cpp:461-468 | The last loop of unmap_range removes exactly the pages of the range |
| `Paging.AddressSpace.VirtToPhys` | system/kernel/arch/i386/virt_mem/paging.cpp:157-161 | For a mapped page, the physical address that the table translates it to; for any page below the window the frame in its entry, present or not |
| `PhysMemModel.After` | system/kernel/kernel/phys_mem.cpp:412-596 | Over any run of reservations and frees, whatever chunk mappings fail: no page is under two headers, the headers cover exactly the pages they covered at boot, no two neighbours could be merged, and a header is to spare |
| `PhysMemModel.ReserveKeeps` | system/kernel/kernel/phys_mem.cpp:412-448 | A reservation takes a wholly free block, exactly as long as asked for if there is a header for the rest, and at most one more whole free region, for headers |
| `PhysMemModel.SplitKeeps` | system/kernel/kernel/phys_mem.cpp:412-493 | A split in whose middle the pool of headers takes another region moves exactly the rest to the free pages and exactly that region to the used ones |
| `PhysMemModel.SplitCoalesced` | system/kernel/kernel/phys_mem.cpp:412-448 | Splitting leaves no two neighbours to merge, also when mapping the chunk of headers fails |
| `PhysMemModel.PoolGrowsWithOneLeft` | system/kernel/kernel/phys_mem.cpp:321-448 | The instance: with two headers left a region is cut, with one left the first free region becomes a chunk as well, and without one the whole region is handed out |
| `PhysMemModel.GetReserves` | system/kernel/kernel/phys_mem.cpp:520-534 | get_mem_area fails exactly when no free region is long enough, and otherwise reserves the first that is |
| `PhysMemModel.ReturnedPageIsReserved` | system/kernel/kernel/phys_mem.cpp:520-534 | The page returned belongs to the caller exactly when the length does not round to zero pages or the region could not be split; for other lengths the next caller can get it too |
| `PhysMemModel.ZeroLengthReservesNothing` | system/kernel/kernel/phys_mem.cpp:520-534 | The instance: reserving no bytes succeeds and returns a page that is still free |
| `PhysMemModel.GetAtCovers` | system/kernel/kernel/phys_mem.cpp:496-517 | The bytes asked for at a page-aligned address are reserved exactly when the address is the start of the header found, or the whole region had to be handed out and reaches far enough |
| `PhysMemModel.GetAtMissesItsAddress` | system/kernel/kernel/phys_mem.cpp:496-517 | The instance: the second page of a free region is asked for and the first one is reserved |
| `PhysMemModel.GetAtSucceeds` | system/kernel/kernel/phys_mem.cpp:385-407 | A reservation at an address succeeds exactly if the first header that reaches to it, or ends at it, is free and has the length; that header is taken from its start |
| `PhysMemModel.CoalesceKeeps` | system/kernel/kernel/phys_mem.cpp:537-558 | Merging on both sides changes no page, overlaps nothing, and leaves nothing to merge |
| `PhysMemModel.FreeReturns` | system/kernel/kernel/phys_mem.cpp:561-596 | free_mem_area moves exactly the pages of the header that holds the address from used to free |
| `PhysMemModel.FreeOutcomes` | system/kernel/kernel/phys_mem.cpp:561-596 | Freed, refused or aborted: exactly as the header that holds the address, its end, the 32-bit end of the range, and its use say; refused if no header holds it |
| `PhysMemModel.FreeUndoesGet` | system/kernel/kernel/phys_mem.cpp:520-596 | Freeing what was just reserved restores the regions exactly, apart from the one that may have become a chunk of headers |
| `PhysMem.Manager.Boot` | system/kernel/kernel/phys_mem.cpp:283-305 | The linked headers of the first chunk hold exactly the free regions, and the counters agree with them |
| `PhysMem.Manager.NotAllTaken` | system/kernel/kernel/phys_mem.cpp:321-361 | While fewer headers are in the list than the chunks have, some header of the chunks is unused: by counting, get_new_header does not run out |
| `PhysMem.Manager.GetNewHeader` | system/kernel/kernel/phys_mem.cpp:321-361 | An unused header is found unless only one was left and no free region could be claimed and mapped for a new chunk; the flags then name exactly the headers in use |
| `PhysMem.Manager.GetHeaderChunk` | system/kernel/kernel/phys_mem.cpp:461-493 | The first free region is claimed whole and mapped, or given back if mapping fails; the chunk goes behind the last one |
| `PhysMem.ChunkIsMapped` | system/kernel/kernel/phys_mem.cpp:461-493 | The bytes of a new chunk are mapped to those from the start of the first free region, which is used from then on, and no other mapping changes |
| `PhysMem.Manager.FindFreePages` | system/kernel/kernel/phys_mem.cpp:370-382 | The walk over the linked headers finds the first free region that is long enough |
| `PhysMem.Manager.SplitHeaderAtLen` | system/kernel/kernel/phys_mem.cpp:412-448 | The splice into the doubly linked list is the cut of the region, even when the pool grows in the middle of it; the number of headers in use is still the length of the list and the number of flags |
| `PhysMem.Manager.GetMemArea` | system/kernel/kernel/phys_mem.cpp:520-534 | The reservation over linked headers computes the first-fit reservation of the regions, and the mapping of the chunk it may need |
| `PhysMem.Manager.FindHeaderForPage` | system/kernel/kernel/phys_mem.cpp:385-407 | The header at whose region, or right behind which, the address is, if it is free and long enough |
| `PhysMem.Manager.GetMemAreaAt` | system/kernel/kernel/phys_mem.cpp:496-517 | The reservation at an address; the branch that removes memory before the address is never reached |
| `PhysMem.Manager.MergeAdjacentHeaders` | system/kernel/kernel/phys_mem.cpp:537-558 | The two unlinkings are the coalescing of the region with its neighbours, and clear exactly the flags of the headers that left the list |
| `PhysMem.Manager.FreeMemArea` | system/kernel/kernel/phys_mem.cpp:561-596 | Frees, refuses or aborts exactly as the region that holds the address says, and keeps links, flags and counters consistent |
| `MemModel.EveryRunIsIsolated` | system/kernel/kernel/mem.cpp:54-124 | Over any run of get_mem and free_mem, live allocations have disjoint virtual pages and disjoint physical pages, and byte i of each translates to byte i of its block |
| `MemModel.After` | system/kernel/kernel/mem.cpp:54-124 | Every run keeps the live allocations owned and apart, and the pages under management those of boot |
| `MemModel.LiveMemoryIsIsolated` | system/kernel/kernel/mem.cpp:54-124 | What the invariant says of two live allocations: disjoint pages, reserved blocks, exact translation |
| `MemModel.ExecKeeps` | system/kernel/kernel/mem.cpp:54-124 | Each call keeps the invariant over both managers, and freeing a live allocation never stops the kernel |
| `MemModel.AllocateAdds` | system/kernel/kernel/mem.cpp:54-94 | In a run an allocation that succeeds is live, with the address returned and the length asked for, and the run stops exactly where get_mem stops the kernel |
| `MemModel.ReleaseRemoves` | system/kernel/kernel/mem.cpp:96-124 | In a run a live allocation can always be released; exactly it is gone, its virtual pages are unmapped and its physical pages free |
| `MemModel.GetMemOutcomes` | system/kernel/kernel/mem.cpp:54-94 | get_mem succeeds, fails, aborts or faults exactly when physical memory, free virtual memory, the unchecked range that ends at 4 GiB, and a zero length say so |
| `MemModel.GetMemOwns` | system/kernel/kernel/mem.cpp:54-94 | What get_mem returns is backed by a reserved block and apart from every allocation owned before, all of which are still owned |
| `MemModel.FreeMemReleases` | system/kernel/kernel/mem.cpp:96-124 | Freeing an allocation with its length succeeds, frees its physical pages, unmaps its virtual ones, and leaves every other allocation owned |
| `MemModel.FreeMemOutcomes` | system/kernel/kernel/mem.cpp:96-124 | free_mem succeeds, refuses or aborts exactly as the address, the mapping of all pages, and the header that holds the physical address say; on success exactly the pages of the range are unmapped, otherwise nothing changes |
| `MemModel.FreeUndoesGetMem` | system/kernel/kernel/mem.cpp:54-124 | get_mem then free_mem restores mapping and regions exactly, apart from a region taken for headers and the mapping of it; without such a region the state is the same |
| `MemModel.GetMemFails` | system/kernel/kernel/mem.cpp:66-88 | A failing get_mem changes nothing exactly when there is no physical memory; without virtual memory the block stays reserved with nobody to free it |
| `MemModel.BlockLost` | system/kernel/kernel/mem.cpp:66-88 | The instance: with all virtual memory mapped and two free pages, a page is asked for, none is returned, and one is lost |
| `Mem.Memory.GetMem` | system/kernel/kernel/mem.cpp:54-94 | The calls of the two managers, in order, compute the model of get_mem |
| `Mem.Memory.FreeMem` | system/kernel/kernel/mem.cpp:96-124 | The same for free_mem; for a mapped address with the physical address the page tables translate it to, as in the runs |
| `Mem.Memory.UnmapRange` | system/kernel/arch/i386/virt_mem/paging.cpp:436-471 | The range is unmapped, and its physical block freed first if the memory is managed, only if every page is mapped and the manager agrees; otherwise nothing changes |
| `SchedulerModel.FindNext` | system/kernel/kernel/scheduler.cpp:26-37 | The first of the runnable tasks that were scheduled least often, or none exactly when no task is runnable |
| `SchedulerModel.EveryRunKeepsInv` | system/kernel/kernel/scheduler.cpp:46-114 | In every run the current task is never finished, no task has two records, and no runnable task would go on behind the swap in end_cur_task |
| `SchedulerModel.ContextFidelity` | system/kernel/kernel/scheduler.cpp:60-66 | A task that gives up the processor has, when it is next current, exactly the registers it had, whatever ran and was cleaned up in between |
| `SchedulerModel.AddQueues` | system/kernel/kernel/scheduler.cpp:69-73 | A new task is last, never scheduled, with its allocations and the registers made for it; nothing else changes |
| `SchedulerModel.NewTaskStarts` | system/kernel/kernel/scheduler.cpp:69-73 | When a new task is first current the processor has the registers made for it, whatever ran since it was added |
| `SchedulerModel.CountsAreEntries` | system/kernel/kernel/scheduler.cpp:60-62 | Over any run the count in the record of a task is its count at the start plus how often it began to run, modulo 2^32; for a task added, just that number |
| `SchedulerModel.SwitchKeepsFiles` | system/kernel/kernel/scheduler.cpp:60-91 | A switch neither loses nor duplicates a task and changes the registers of none |
| `SchedulerModel.TasksConserved` | system/kernel/kernel/scheduler.cpp:46-114 | Over any run the tasks that have not ended are those there were and those added, without those ended while another one could run; none is lost or has two records |
| `SchedulerModel.EndedNeverRuns` | system/kernel/kernel/scheduler.cpp:75-95 | A task that has ended is never current again, in any run |
| `SchedulerModel.EndEnds` | system/kernel/kernel/scheduler.cpp:75-95 | end_cur_task ends the current task exactly when another one is runnable; otherwise it stays current and runnable |
| `SchedulerModel.WaitStep` | system/kernel/kernel/scheduler.cpp:26-62 | Each switch takes at least one from the sum over the other tasks of what they are behind the waiting one, and an added task adds its count and one |
| `SchedulerModel.BoundedWaiting` | system/kernel/kernel/scheduler.cpp:26-91 | A runnable task scheduled c times, c below 2^32 - 1, becomes current before the switches exceed that sum plus c + 1 for each task added |
| `SchedulerModel.BoundedWaitingInRun` | system/kernel/kernel/scheduler.cpp:26-91 | The same in any run from the start of the scheduler, for every task that ran fewer than 2^32 - 1 times, with that number |
| `SchedulerModel.ThreeTasksTakeTurns` | system/kernel/kernel/scheduler.cpp:46-67 | The instance: three tasks that only yield run in the order A B A C B C A |
| `SchedulerModel.WrapStarvesExists` | system/kernel/kernel/scheduler.cpp:61 | At the count 2^32 - 1 there is no bound: counts wrap, and for every n a task can wait through n switches |
| `SchedulerModel.EachBlockFreedOnce` | system/kernel/kernel/scheduler.cpp:97-114 | Over any run every allocation a task came with is in exactly one record or was freed, once |
| `SchedulerModel.AllocationsStay` | system/kernel/kernel/scheduler.cpp:60-114 | Over any run the allocations in the record of a task stay its own |
| `SchedulerModel.CleanupKeepsOrder` | system/kernel/kernel/scheduler.cpp:103-112 | Cleanup keeps each unfinished task, behind exactly the unfinished ones that were before it |
| `SchedulerModel.UnfinishedIn` | system/kernel/kernel/scheduler.cpp:103-112 | Cleanup leaves exactly the unfinished tasks |
| `LockHandOff.LockIsHandedOff` | system/kernel/kernel/scheduler.cpp:46-120 | Over every run of the steps inside the scheduler the lock is free exactly when task code runs, each acquire has one release, by the task that runs next, the swap in end_cur_task is never returned from, and task code sees the states of a run of whole calls |
| `LockHandOff.RunIsOfCalls` | system/kernel/kernel/scheduler.cpp:46-95 | Task code sees the states of the run of the calls it made, with sched as a yield and end_cur_task as an end; inside the scheduler exactly the last call is still to return |
| `LockHandOff.StuckExactly` | system/kernel/kernel/scheduler.cpp:69-73 | The processor waits forever exactly if a tick in a new second comes in the middle of the scheduler: it adds a task, for which it needs the lock of the task it interrupted |
| `Schedulers.Scheduler.FindNextTask` | system/kernel/kernel/scheduler.cpp:26-37 | The loop over the vector finds that task |
| `Schedulers.Scheduler.Switch` | system/kernel/kernel/scheduler.cpp:60-62 | The record of the current task changes places with the one in the slot, and the processor's registers are saved in it |
| `Schedulers.Scheduler.Sched` | system/kernel/kernel/scheduler.cpp:46-67 | sched is one step of the model, and the lock is free afterwards; while the lock is held it does nothing |
| `Schedulers.Scheduler.EndCurTask` | system/kernel/kernel/scheduler.cpp:75-95 | end_cur_task is one step of the model; it halts exactly when no other task is runnable, and waits exactly when the lock is held |
| `Schedulers.Scheduler.AddNewTask` | system/kernel/kernel/scheduler.cpp:69-73 | The new task is last in the vector, never scheduled; with the lock held the call waits and changes nothing |
| `Schedulers.Scheduler.EraseFinished` | system/kernel/kernel/scheduler.cpp:103-112 | Erasing while walking terminates, leaves the unfinished tasks in the same buffer, and frees the allocations of the finished ones in order |
| `Schedulers.Scheduler.CleanupFinishedTasks` | system/kernel/kernel/scheduler.cpp:97-114 | cleanup is one step of the model, and does nothing while the lock is held |
| `Schedulers.Scheduler.HandleTick` | system/kernel/kernel/scheduler.cpp:124-143 | A tick is a cleanup, perhaps a new task, and a yield; it waits exactly in a new second with the lock held, and changes nothing then |
| `KVectors.KVector.Reserve` | system/libFeline/include/feline/kvector.h:94-104 | The contents stay; the buffer is replaced, by one of just the size asked for, exactly when it is too small |
| `KVectors.KVector.PushBack` | system/libFeline/include/feline/kvector.h:106-110 | The item is added at the end; the buffer is kept exactly when there is room |
| `KVectors.KVector.Erase` | system/libFeline/include/feline/kvector.h:162-170 | Exactly the item at the position goes, and the others move down in the same buffer; at the end nothing happens |
| `DeviceTree.WalkFindsProperties` | system/kernel/arch/arm/devicetree/devicetree.cpp:58-120 | On the encoding of any well-formed tree the walk calls back for exactly the direct properties of the nodes whose name has the prefix, in document order, with the cell sizes of the node above, and leaves the aligned cursor on the end token |
| `DeviceTree.WalkBody` | system/kernel/arch/arm/devicetree/devicetree.cpp:58-110 | The same inside any node: the calls of its entries, and then the walk goes on behind them with the cell sizes they set |
| `DeviceTree.ForEachPropInNode` | system/kernel/arch/arm/devicetree/devicetree.cpp:58-110 | The recursive loop terminates on any bytes, and makes the calls of the walk; it aborts on a bad token |
| `DeviceTree.IncrementFdtStruct` | system/kernel/arch/arm/devicetree/devicetree.cpp:15-56 | Where the cursor goes from each kind of entry, with names and values padded to words |
| `DeviceTree.HeadAt` | system/kernel/arch/arm/devicetree/devicetree.cpp:27-31 | The cursor goes from the head of an encoded node to its first entry, and strncmp decides whether the name has the prefix |
| `DeviceTree.PropAt` | system/kernel/arch/arm/devicetree/devicetree.cpp:32-36 | The cursor goes from an encoded property to the entry behind it, and its fields are read as written |
| `DeviceTree.EntryLengths` | system/kernel/arch/arm/devicetree/devicetree.cpp:15-36 | An encoded property or node head takes whole words, and no more than its value, or its name with the zero, needs |
| `DeviceTree.StringIsExact` | system/kernel/arch/arm/devicetree/devicetree.cpp:77-84 | strcmp finds a name exactly where the string has its length and its characters |
| `DeviceTree.WalkOfBlock` | system/kernel/arch/arm/devicetree/devicetree.cpp:58-120 | The instance in bytes: registers in a node of the root come with the cell sizes of the root, in a node whose parent sets none with 2 and 1, at the cursors 52 and 84, and the walk ends at 116 |
| `DeviceTree.WordsAreBigEndian` | system/kernel/arch/arm/devicetree/devicetree.cpp:15-36 | The instance: four bytes are a word with the first one on top |
| `Itostr.NtostrBuffer` | system/libFeline/src/string/itostr.cpp:48-67 | Sixteen digits and a zero for every number and base 2 to 16; -1 and an unchanged buffer for other bases |
| `Itostr.TextValue` | system/libFeline/src/string/itostr.cpp:53-66 | Those digits are below the base and stand for the number modulo the power of the base |
| `Itostr.TextOfNumbers` | system/libFeline/src/string/itostr.cpp:53-66 | The instances: 1234 in five digits, 0xAF with the characters behind 9, and 5 in base 2 |
| `Itostr.Ntostr` | system/libFeline/src/string/itostr.cpp:10-41 | Where the counting loop ends, the text the string version returns, including division by zero when a power wraps to zero |
| `Itostr.PrintsExactlyWhen` | system/libFeline/src/string/itostr.cpp:23-40 | For every width the text is exactly the digits of the number, padded with zeros, if and only if the counting loop ends at their number, or inside the width, no power divided by wraps to zero, and a wrapped power gives a zero in front of the number |
| `Itostr.PaddedText` | system/libFeline/src/string/itostr.cpp:23-40 | That text has the width or the digit count as its length, and stands for the number in digits of the base |
| `Itostr.PrintsNumber` | system/libFeline/src/string/itostr.cpp:23-40 | It is printed when no power that is used wraps |
| `Itostr.WrappedAndRight` | system/libFeline/src/string/itostr.cpp:34-39 | The instance where a power wraps and the text is right all the same: 5 in base 10 with width 21 |
| `Itostr.PrintsNumberExactly` | system/libFeline/src/string/itostr.cpp:24-40 | Without padding the text is the digits of the number if and only if the first power above it, computed in 64 bits, is still above it |
| `Itostr.HexHangs` | system/libFeline/src/string/itostr.cpp:24-26 | In base 16 the counting loop ends exactly for numbers below 2^60 |
| `Itostr.WideHexFaults` | system/libFeline/src/string/itostr.cpp:34-39 | In base 16 a width over sixteen divides by zero |
| `Itostr.VersionsAgree` | system/libFeline/src/string/itostr.cpp:10-67 | At width 16 the string version returns the digits of the buffer version if and only if the number has at most sixteen digits, or fifteen in base 16 |
| `BootPlacement.FindSpaceInArea` | system/kernel/kernel/phys_mem.cpp:97-154 | The recursive search with its loop terminates and computes the search from blocking area to blocking area; a result is page-aligned, and from its first byte to the one behind its last has no address in common with any unavailable region |
| `BootPlacement.ClearOfIs` | system/kernel/kernel/phys_mem.cpp:115-118 | The test for an overlap says exactly whether place and region, each with the byte behind it, have no address in common |
| `BootPlacement.GoesOnBehind` | system/kernel/kernel/phys_mem.cpp:115-152 | The instances: behind a region in the way the search goes on at the next page, and gives up where exactly the size is left |
| `BootPlacement.FindsLowest` | system/kernel/kernel/phys_mem.cpp:97-154 | A result is the lowest page-aligned place strictly clear of every unavailable region, whatever their order or overlaps; without one no such place fits |
| `BootPlacement.FitsIfAnyDoes` | system/kernel/kernel/phys_mem.cpp:119-127 | The result fits before the end of the available memory exactly when some place does |
| `BootPlacement.PassesTheEnd` | system/kernel/kernel/phys_mem.cpp:115-127 | The result passes the end exactly when nothing is in the way at the place reached and it is too close to the end; if nothing is in the way at the first place that is the result, and later ones pass the end by less than a page |
| `BootPlacement.FoundPastTheEnd` | system/kernel/kernel/phys_mem.cpp:115-127 | The instance: one byte of memory, and two pages are said to fit |

## Left out

- The lock `modifying_page_tables`: `map_range` keeps it when it is out of virtual memory
  (system/kernel/arch/i386/virt_mem/paging.cpp:371-373), so that a later call would wait forever; the
  model goes on as if it had been released.
- `Spinlock`: the scheduler's lock is a flag on one processor, and no mutual exclusion is claimed from
  the real one, whose loop and result are the reverse of what `test_and_set` returns; interrupts,
  other locks and the memory order are not modelled.
- The assembly of `swap_task_registers`: a context is the words it saves and the point where it goes
  on; which registers the calling convention lets it lose is not modelled.
- `create_new_task` and `init_frame`: the registers and allocations of a new task are parameters.
- `free_mem` in `cleanup_finished_tasks` is a log of the calls, not calls of `Mem.Memory.FreeMem`.
- The class `Heap.Allocator` gets its pages from a list that is a parameter; a list that is used up
  stands for a failing `get_mem`, which aborts. `HeapOverMem` runs the functions it computes over
  those that `Mem.Memory` computes, not the two classes over each other.
- `memset` and `std::fill_n`: what memory holds is not modelled, only whether it is mapped.
- Paging.AddressSpace.MapPage: does not overwrite a page of the window at 0xFFC00000, which would
  write a directory entry and could take tables out of the self-map.
- Paging.AddressSpace.InternalMapRange: with MAP_OVERWRITE, for the same reason, only below the window.
- Paging.AddressSpace.MapRange: without MAP_OVERWRITE.
- Paging.AddressSpace.UnmapPage: not for pages of the window, which would take a table away.
- Paging.AddressSpace.AllMapped: not for ranges that reach into the window.
- Paging.AddressSpace.UnmapPages: not for ranges that reach into the window.
- Mem.Memory.UnmapRange: not for ranges that reach into the window.
- Mem.Memory.FreeMem: not for ranges that reach into the window.
- PhysMem.Manager.Boot: the regions are free, disjoint and coalesced already, as carving should leave
  them.
- The round trip of `unmap_range` for unaligned physical addresses: only `map_range` adds the offset
  into the page to the length, so that a last page can stay mapped.
- The page tables and the kernel image are in frames that the physical memory manager does not know
  of; that it was not given them at boot is not proved.
- Regions of physical memory that end at exactly 4 GiB, whose end is 0 in 32 bits: the regions of the
  manager end below it (`PhysMemModel.Sound`).
- Carving the available regions at boot (system/kernel/kernel/phys_mem.cpp:201-302) and
  `ensure_not_allocatable`, which does not keep the counters: the manager starts from disjoint free
  regions.
- `get_mem_from`: the same composition as `get_mem`, with the reservation at an address.
- The canaries of the physical headers, logging, and `dump_pagetables`.
- TLB flushes, and what the processor caches of the tables.
- KVectors.KVector: `append`, the erasure of ranges, and construction and destruction of the items.
- Itostr.Ntostr: only for numbers for which the counting loop ends, which is a condition on the
  powers as they are computed.
- DeviceTree.Walk: pointers past the end of the block are an outcome of their own here; in the
  kernel they read whatever is there. A string that does not end inside the strings block equals no
  name.
- ARM paging, the memory maps of both architectures, drivers, output, system calls, and the other
  string functions.
