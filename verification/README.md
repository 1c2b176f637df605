# A verified model of RHKernel

This project models the parts of RHKernel, an x86_64 kernel, whose correctness rests on state kept
consistent across many operations, and proves in Dafny what they keep. `dafny verify dfyconfig.toml`
checks all of it.

- **Physical memory** (`BuddyBlocks`, `BuddyOps`, `FreeLists`, `RefRadix`, `PmmSteps`,
  `ConstrainedAlloc`, `Pmm`, `BootSpans`, `BootOverlap`, `DirectMap`, `Boot`, `BootRun`). The buddy
  allocator with its per-order lists, counts and non-empty mask, constrained allocation, the sparse
  four-level tree of page reference counts whose pages come from the same allocator, and the hand-over
  of memory at boot. The central fact is that a buddy-free set of blocks (canonical form) is determined
  by the pages it covers. From boot through any sequence of allocations, frees and counting, with the
  two critical sections of dropping a reference apart, an allocation fails only if no suitable run of
  free pages exists, and no page is lost or has two owners. The premise is that the memory map starts
  the lists in canonical form, and exactly when it does is a condition on the map.
- **Virtual memory** (`CopyOnWrite`, `UserWalk`, `UserFrames`, `Paging`, `MmapPlacement`).
  Copy-on-write fork against deep copying, the recursion over page tables that fork and teardown make,
  both on the page allocator so that no mapped frame is ever free, page tables of 4 and 5 levels with
  leaves of three sizes, and the choice of mmap addresses.
- **Block cache** (`BlockCache`, `CacheCoherence`, `CachedIo`). Lists, hash chains and the loading
  protocol, over every interleaving of readers and writers, and cached I/O against plain device I/O.
- **Protocols between CPUs and tasks** (`Mailbox`, `WaitQueue`, `WorkQueue`), as state machines over
  their critical sections, with theorems about every run.
- **Searches and tables** (`Glob`, `Paths`, `Descriptors`) and the **user heap** (`UserHeap`).

`Common` holds what several modules share.

Conventions. Addresses in the memory models are page numbers unless a name says bytes. Code that
updates state step by step is a method with its loop, mostly from state value to state value, under a
class where the source has an object; a protocol is a function from state and step to state, and a run
is a sequence of steps. Locks are not state: what happens under one lock is one step, and
operations that are one step without it are named under "Left out". Ghost parameters and fields name
what a state stands for (the free pages, the counts, the lists).

Some results are about where the code falls short, each with the exact condition:

- A write fault on a not-present software entry without the write flag, in a writable area, stores a
  frame in an absent entry and so leaks its reference (`CopyOnWrite.FaultKeepsInvIff`, `LeakExample`).
  Running into the guard page of a stack is such a fault, and loses the guard
  (`CopyOnWrite.GuardExample`, `GuardSurvivesIff`).
- Dropping a reference of a page that has none left frees the page again and corrupts the allocator,
  exactly if the page is free or metadata (`Pmm.PhysicalMemory.UnrefPage`, `DropTwice`); so does
  freeing an aligned block that is out of range, free or metadata, where a misaligned one panics
  (`Pmm.PhysicalMemory.Free`).
- Touching entries of the memory map can leave unmerged buddies on the free lists
  (`Boot.TouchingExample`, `BootSpans.CanonicalIff`), and splitting memory around an empty or inverted
  reserved range can lose or repeat pages (`Boot.BesideIffProper`); repeated pages leave the lists
  wrong (`BootOverlap.RightIffApart`).
- Adding a range that touches both the first and the last entry of the table of ranges to map leaves
  two entries that touch, because the last takes the place of the first and is not looked at
  (`DirectMap.AddDirect`, `GapExample`); the table still covers the right pages.
- The wildcard matcher is right for every pattern iff the name has no `*` (`Glob.RightIffNoStar`).
- `realloc` of a size whose rounding wraps returns a block that is too small
  (`UserHeap.ReallocWrapExample`); it has room for the size asked for iff rounding does not wrap
  (`UserHeap.Realloc`).
- A delay whose tick does not fit in 64 bits is over at once (`WorkQueue.DueAtOnceIff`).
- A mapped range is exact iff it fits the address space and lies below the addressable limit
  (`Paging.RangeIsExactIff`).

## Model

| member | source | states |
|---|---|---|
| BuddyBlocks.XorBitIsBuddy | src/impl/x86_64/memory/pmm.cpp:293-296 | flipping the order bit of an aligned address gives the other half of the next larger block |
| BuddyBlocks.CoveringBlock | src/impl/x86_64/memory/pmm.cpp:694-701 | in canonical form, an aligned run of free pages up to the top order lies inside one free block |
| BuddyBlocks.MaximalFree | src/impl/x86_64/memory/pmm.cpp:694-701 | a free block of canonical form cannot be enlarged: its parent is not wholly free |
| BuddyBlocks.Unique | src/impl/x86_64/memory/pmm.cpp:673-703 | two canonical block sets with the same free pages are equal |
| BuddyOps.MergeInKeeps | src/impl/x86_64/memory/pmm.cpp:694-701 | merging a block upwards keeps blocks disjoint and buddy-free and adds exactly its pages |
| BuddyOps.FreeingIsConfluent | src/impl/x86_64/memory/pmm.cpp:673-703 | freeing the same pages in any order and any division into blocks gives the same block set |
| BuddyOps.FreeWholeIsFreeByPage | src/impl/x86_64/memory/pmm.cpp:649-703 | freeing a block whole or page by page gives the same block set |
| BuddyOps.SplitKeeps | src/impl/x86_64/memory/pmm.cpp:714-721 | splitting a block down keeps canonical form and leaves free exactly the pages other than the part kept |
| BuddyOps.SplitThenMerge | src/impl/x86_64/memory/pmm.cpp:673-737 | allocating a block and freeing it restores the block set |
| BuddyOps.CarveBlockFits | src/impl/x86_64/memory/pmm.cpp:344-361 | each block carved from a range is aligned, fits, and is the largest that does at that address |
| BuddyOps.CarveIsExact | src/impl/x86_64/memory/pmm.cpp:344-361 | carving a range gives disjoint blocks that cover it exactly, none half of a larger block inside it |
| BuddyOps.CutOutKeeps | src/impl/x86_64/memory/pmm.cpp:782-793 | cutting a block out of a free block and carving the rest keeps canonical form and frees all but the hole |
| FreeLists.PushOk | src/impl/x86_64/memory/pmm.cpp:306-316 | linking a block adds exactly its pages and keeps counts, mask and free bytes exact |
| FreeLists.DropOk | src/impl/x86_64/memory/pmm.cpp:318-342 | unlinking a block removes exactly its pages and keeps counts, mask and free bytes exact |
| FreeLists.PushAcceptsIff | src/impl/x86_64/memory/pmm.cpp:306-309 | the guard of push_block lets a block pass iff its order exists and its page is aligned for it |
| RefRadix.DigitsInjective | src/impl/x86_64/memory/pmm.cpp:395-427 | different chunks of counts have different index paths |
| RefRadix.SlotsDistinct | src/impl/x86_64/memory/pmm.cpp:395-427 | different pages have different count slots |
| RefRadix.HangKeepsCounts | src/impl/x86_64/memory/pmm.cpp:395-427 | creating a tree page changes no count |
| RefRadix.StoreCounts | src/impl/x86_64/memory/pmm.cpp:429-434 | storing a count changes that page's count and no other |
| RefRadix.EmptyCounts | src/impl/x86_64/memory/pmm.cpp:517-517 | with a zero root every count is 0 |
| PmmSteps.SizeToOrderIsLeast | src/impl/x86_64/memory/pmm.cpp:285-291 | the order of a size is the least whose block holds it |
| PmmSteps.RemoveBlock | src/impl/x86_64/memory/pmm.cpp:328-342 | finds and unlinks a block iff it is on the list of its order |
| PmmSteps.SplitDown | src/impl/x86_64/memory/pmm.cpp:714-721 | the splitting loop leaves the free blocks of the recursive definition |
| PmmSteps.TakeBlock | src/impl/x86_64/memory/pmm.cpp:705-721 | fails iff no block is large enough, else takes exactly one block of the order and keeps canonical form |
| PmmSteps.MergeBlock | src/impl/x86_64/memory/pmm.cpp:694-702 | for any block: panics, with the lists as they were, iff the block is misaligned; otherwise the lists stay exact iff it is in range and off the lists, and then hold the free blocks of the recursive definition and gain exactly the pages freed |
| PmmSteps.AllocMetadataPage | src/impl/x86_64/memory/pmm.cpp:379-393 | takes one free page, or none iff no page is free, and keeps canonical form |
| PmmSteps.GetRefSlot | src/impl/x86_64/memory/pmm.cpp:395-427 | finds the leaf of a page, creating missing levels from free pages only, and changes no count; 0 for a page out of range, when no page is left, or when there is no leaf and none is wanted |
| PmmSteps.SetRef | src/impl/x86_64/memory/pmm.cpp:429-434 | for any page, stores one count; fails only when pages run out or the page is out of range, and storing 0 never fails and allocates nothing |
| PmmSteps.InitRefcounts | src/impl/x86_64/memory/pmm.cpp:436-441 | for any range, sets exactly the counts of the range to 1, or fails because no page is left or the range is out of range |
| PmmSteps.ClearRefcounts | src/impl/x86_64/memory/pmm.cpp:689-692 | sets exactly the counts of the range to 0 and draws no page |
| ConstrainedAlloc.AlignUpIsLeast | src/impl/x86_64/memory/pmm.cpp:78-83 | rounding up gives the least aligned address not below |
| ConstrainedAlloc.RangeCanHoldIsExact | src/impl/x86_64/memory/pmm.cpp:363-377 | the candidate in a range fits the window and alignment and is the lowest that does, and none iff there is none |
| ConstrainedAlloc.FindRoom | src/impl/x86_64/memory/pmm.cpp:761-773 | finds a block with room iff some block of sufficient order has room |
| ConstrainedAlloc.NoRoomMeansNoRun | src/impl/x86_64/memory/pmm.cpp:739-775 | in canonical form, no block with room means no suitable free run anywhere, across blocks included |
| Pmm.PushRange | src/impl/x86_64/memory/pmm.cpp:344-361 | links exactly the pages of the range, as the carved blocks, in that order |
| Pmm.CutBlock | src/impl/x86_64/memory/pmm.cpp:779-793 | takes a hole out of a free block, frees the rest and keeps canonical form |
| Pmm.NoBlockMeansNoRun | src/impl/x86_64/memory/pmm.cpp:705-713 | in canonical form, no block of an order means no aligned free run of that size |
| Pmm.PhysicalMemory.constructor | src/impl/x86_64/memory/pmm.cpp:502-517 | given exact free lists, an allocator with every count 0 |
| Pmm.PhysicalMemory.Alloc | src/impl/x86_64/memory/pmm.cpp:705-737 | takes one free block with count 1 per page and otherwise only metadata pages; 0 for a valid size in canonical form only if no aligned free run of that size exists; keeps canonical form |
| Pmm.PhysicalMemory.AllocConstrained | src/impl/x86_64/memory/pmm.cpp:739-804 | the same inside a window and with an alignment; 0 only if no suitable run of free pages exists |
| Pmm.PhysicalMemory.Free | src/impl/x86_64/memory/pmm.cpp:673-703 | of any page and size: panics iff the size has no order or the page is not aligned for it, in the second case with the counts cleared and the lists untouched; otherwise sound iff the block is in range and neither free nor metadata, and then exactly its pages are freed, its counts cleared and canonical form kept |
| Pmm.PhysicalMemory.RefPage | src/impl/x86_64/memory/pmm.cpp:637-647 | adds one to the count of one page, in 32 bits, and changes no other; sound iff the page is neither free nor metadata; on a counted page it takes no page and cannot panic |
| Pmm.PhysicalMemory.GetRef | src/impl/x86_64/memory/pmm.cpp:664-671 | the count of the page, 0 out of range |
| Pmm.PhysicalMemory.DropRef | src/impl/x86_64/memory/pmm.cpp:649-662 | the critical section of unref_page: takes one from the count and says whether none is left |
| Pmm.PhysicalMemory.UnrefPage | src/impl/x86_64/memory/pmm.cpp:649-662 | takes one from a count and frees the page exactly when it reaches 0; does nothing without a leaf; keeps the state sound iff not dropping a count that is 0 already of a page that is free or metadata |
| Pmm.PhysicalMemory.DropTwice | src/impl/x86_64/memory/pmm.cpp:649-662 | from every state, dropping the reference of a fresh page twice corrupts the allocator |
| Boot.RoundedInwards | src/impl/x86_64/memory/pmm.cpp:443-467 | rounding a span inwards gives exactly the pages wholly inside |
| Boot.AddSpan | src/impl/x86_64/memory/pmm.cpp:443-481 | hands over or sets aside exactly the pages wholly inside the span |
| Boot.BesideIffProper | src/impl/x86_64/memory/pmm.cpp:483-500 | splitting around a reserved range is right for every range and page iff the reserved range has bytes, ends at 0, or has exactly one page boundary from its end to its start |
| Boot.SpansAreUsable | src/impl/x86_64/memory/pmm.cpp:483-500 | the spans a range is split into do not overlap and hold exactly its pages that touch no reserved range |
| Boot.SpansAvoid | src/impl/x86_64/memory/pmm.cpp:483-500 | whatever the reserved ranges, the spans stay in the range and clear of every reserved range with bytes |
| Boot.FreeWithReservation | src/impl/x86_64/memory/pmm.cpp:483-500 | hands over exactly the spans left of the range, and if the reserved ranges are proper those are the pages that touch no reserved range |
| Boot.ReleaseDeferred | src/impl/x86_64/memory/pmm.cpp:624-635 | frees exactly what was set aside, once |
| Boot.HandOver | src/impl/x86_64/memory/pmm.cpp:602-635 | the free blocks are the spans cut from the memory map, carved one after another, each page once, and managed bytes count them; with a sound map and proper reserved ranges the free pages are exactly those wholly available and unreserved; canonical form iff no two spans cross; the table of ranges to map covers exactly the pages available entries touch; with memory below 64 GiB and at most 256 available entries no table overflows |
| Boot.SpansAreReleased | src/impl/x86_64/memory/pmm.cpp:602-613 | the spans of a whole memory map do not overlap and hold exactly the pages wholly available and unreserved |
| DirectMap.AddDirect | src/impl/x86_64/memory/pmm.cpp:95-111 | the table then covers exactly the pages it did and those of the range; from separate entries it keeps them separate iff the range did not touch both the first and the last; overflows only with 256 entries |
| DirectMap.GapExample | src/impl/x86_64/memory/pmm.cpp:100-107 | filling the gap between two entries leaves two entries that touch |
| BootSpans.TopOrderFits | src/impl/x86_64/memory/pmm.cpp:189-207 | the top order chosen has a list, and unless 0 some span has the pages of a block of it |
| BootSpans.CanonicalIff | src/impl/x86_64/memory/pmm.cpp:453-481 | carving spans that do not overlap gives canonical form iff no two of them touch at the middle of a block below the top order that lies inside the two |
| BootSpans.UntouchingIsCanonical | src/impl/x86_64/memory/pmm.cpp:453-481 | carving spans that nowhere touch gives canonical form |
| BootSpans.CarveSplits | src/impl/x86_64/memory/pmm.cpp:453-461 | cutting a span at a page aligned to the top order, as at the end of mapped memory, changes no block |
| BootOverlap.RightIffApart | src/impl/x86_64/memory/pmm.cpp:453-481 | handing over spans of allocatable pages one after another leaves the lists right iff no two spans overlap |
| Boot.TouchingExample | src/impl/x86_64/memory/pmm.cpp:599-613 | two one-page entries, pages 256 and 257, beside 1 GiB, leave unmerged buddies at the top order chosen for them, 11 |
| BootRun.StepConserves | src/impl/x86_64/memory/pmm.cpp:637-804 | each step that is allowed keeps every page handed over in exactly one of four states: free, metadata, held, or dropped and not yet freed |
| BootRun.Do | src/impl/x86_64/memory/pmm.cpp:637-804 | in canonical form, an allocation fails only if no suitable run of free pages exists; freeing adds exactly the pages of the block; counts change by one; only an allocation can panic; no page is lost |
| BootRun.FromBoot | src/impl/x86_64/memory/pmm.cpp:599-804 | from boot with the top order it chooses, on a memory map whose spans do not cross, through every sequence of allocations, frees, added and dropped references and late frees of dropped pages, an allocation fails only if no suitable run of free pages exists, and every page handed over is in exactly one of the four states |
| CopyOnWrite.FaultKeepsInvIff | src/impl/x86_64/memory/vmm.cpp:720-777 | handling a fault keeps counts equal to mappings iff it is not the leaking fault |
| CopyOnWrite.LeakExample | src/impl/x86_64/memory/vmm.cpp:746-777 | a concrete fault that leaves a counted frame unmapped |
| CopyOnWrite.GuardExample | src/impl/x86_64/memory/vmm.cpp:746-777 | a write to the guard page of a writable stack area leaks a frame and loses the guard |
| CopyOnWrite.GuardSurvivesIff | src/impl/x86_64/memory/vmm.cpp:720-831 | a guard survives a fault anywhere iff the fault is not the leaking one on the guard itself |
| CopyOnWrite.FaultIsInvisible | src/impl/x86_64/memory/vmm.cpp:746-831 | handling a fault changes nothing that an address space reads, but for one new zero stack page or the write permission of one page |
| CopyOnWrite.StoreIsPrivate | src/impl/x86_64/memory/vmm.cpp:790-831 | a store through a writable mapping changes one page of one address space |
| CopyOnWrite.ForkIsDeepCopy | src/impl/x86_64/memory/vmm.cpp:525-599 | after a clone the child reads what the parent reads and all others read what they did |
| UserWalk.CloneAddressSpace | src/impl/x86_64/memory/vmm.cpp:539-599 | copies every user leaf and marked entry of the parent: the child reads what the parent reads, all others read what they did, and counts equal mappings; fails only at a huge entry |
| CopyOnWrite.ExitRemovesSpace | src/impl/x86_64/memory/vmm.cpp:833-862 | destroying an address space removes its pages and changes no other space |
| UserWalk.DestroyAddressSpace | src/impl/x86_64/memory/vmm.cpp:833-862 | drops every leaf of the space and no other, and frees each of its tables once |
| CopyOnWrite.StepIsPrivate | src/impl/x86_64/memory/vmm.cpp:427-862 | each operation but the leaking fault acts on what spaces read as it would on private copies |
| CopyOnWrite.ForkIsolation | src/impl/x86_64/memory/vmm.cpp:525-862 | in every run without the leaking fault each address space reads what it would if fork copied all memory, and counts equal mappings |
| CopyOnWrite.WritablePageIsWritten | src/impl/x86_64/memory/vmm.cpp:790-831 | a page that is to be writable can be written after one write fault iff the allocator has the frame the fault asks for, and the sole user of a frame needs none |
| UserWalk.UserPagesAreExact | src/impl/x86_64/memory/vmm.cpp:539-586 | the recursion over the tables meets every present user leaf and every marked entry below the top of user memory, nothing else, each once and in address order |
| UserWalk.CloneTable | src/impl/x86_64/memory/vmm.cpp:539-586 | the recursion of fork, table by table and entry by entry, copies exactly the leaves of that list |
| UserWalk.DestroyTable | src/impl/x86_64/memory/vmm.cpp:833-858 | the recursion of teardown drops exactly the leaves of that list, and frees a table after all tables under it |
| UserWalk.TablesFreedOnce | src/impl/x86_64/memory/vmm.cpp:833-862 | teardown frees exactly the tables on the way to user memory, each once, and so no table of the kernel half |
| UserFrames.HandleFault | src/impl/x86_64/memory/vmm.cpp:790-831 | on the real allocator, the fault is one that the model of address spaces allows: the frames it gets have no mappings, and the allocator counts what is mapped |
| UserFrames.Fork | src/impl/x86_64/memory/vmm.cpp:560-571 | fork adds a reference per shared frame, so that the allocator counts the mappings; it stops before a count wraps |
| UserFrames.Exit | src/impl/x86_64/memory/vmm.cpp:833-862 | teardown drops a reference per mapping, and frees a frame with its last one |
| UserFrames.MappedIsNotFree | src/impl/x86_64/memory/vmm.cpp:720-862 | counts that agree keep every mapped frame off the free lists and out of the metadata |
| UserFrames.RunAll | src/impl/x86_64/memory/vmm.cpp:427-862 | in every run of faults, stores, forks, mappings, unmappings, teardowns and kernel allocations, no mapped frame is free, the allocator counts the mappings, and each space reads what it would if fork copied all memory |
| Paging.DigitsInjective | src/impl/x86_64/memory/vmm.cpp:183-190 | page numbers within the address space have different table indexes |
| Paging.WriteElsewhere | src/impl/x86_64/memory/vmm.cpp:351-365 | writing an entry does not change the translation of addresses that do not pass through it |
| Paging.HangIsSilent | src/impl/x86_64/memory/vmm.cpp:159-179 | linking a new empty table changes no translation |
| Paging.WalkToLevel | src/impl/x86_64/memory/vmm.cpp:159-199 | reaches the table for an address, creating tables without changing any translation |
| Paging.MapPage | src/impl/x86_64/memory/vmm.cpp:351-369 | maps exactly the pages of one leaf and changes no other translation |
| Paging.MapRange | src/impl/x86_64/memory/vmm.cpp:371-409 | maps the pages of a range of any length, in order, with any mix of leaf sizes, and changes no other translation; a range longer than the address space goes around it and the last frame stays; stops only for want of table pages or at a huge leaf, with exactly the part before mapped |
| Paging.RangeIsExactIff | src/impl/x86_64/memory/vmm.cpp:609-631 | the range translates page for page iff it fits the address space and lies below the addressable limit |
| MmapPlacement.FirstFit | src/impl/x86_64/syscall.cpp:958-972 | the scan ends at the lowest fit from where it starts, or finds that there is none |
| MmapPlacement.ChooseMmapAddr | src/impl/x86_64/syscall.cpp:938-978 | a non-zero result is aligned, in the window and clear of every area; zero iff nothing fits |
| BlockCache.FindIsExact | src/impl/x86_64/file/fs.cpp:202-208 | looking in one chain finds the live entry of a block iff there is one anywhere |
| BlockCache.PickIsIdle | src/impl/x86_64/file/fs.cpp:210-221 | the victim is free, or the least recently used entry not being loaded; none iff all are being loaded |
| BlockCache.EnterLinked | src/impl/x86_64/file/fs.cpp:243-251 | giving an entry to a block keeps free list, recency list and chains in step with the entries |
| BlockCache.LeaveLinked | src/impl/x86_64/file/fs.cpp:272-276 | freeing an entry keeps free list, recency list and chains in step with the entries |
| BlockCache.TouchLinked | src/impl/x86_64/file/fs.cpp:137-146 | using an entry keeps the lists in step with the entries |
| BlockCache.InvalidateIsExact | src/impl/x86_64/file/fs.cpp:301-316 | drops exactly the entries in the range, marks exactly the loads in it stale, keeps the lists in step |
| BlockCache.EmptyLinked | src/impl/x86_64/file/fs.cpp:165-169 | the initial lists agree with the entries |
| CacheCoherence.StepKeeps | src/impl/x86_64/file/fs.cpp:223-281 | every step of readers and writers keeps the lists, one entry per block, and the freshness of published data |
| CacheCoherence.ReadersSeeFresh | src/impl/x86_64/file/fs.cpp:223-281 | in every run an entry found valid holds a version of its block newer than every completed write |
| CacheCoherence.ValidIsCoherent | src/impl/x86_64/file/fs.cpp:486-510 | in every run a valid entry is the device block unless a writer of it has yet to invalidate |
| CacheCoherence.OvertakenIsNotPublished | src/impl/x86_64/file/fs.cpp:256-279 | a load overtaken by an invalidation of its block is dropped, whatever happens in between |
| CachedIo.Load | src/impl/x86_64/file/fs.cpp:223-281 | succeeds iff the block is wholly on the device, and then has it cached |
| CachedIo.Prefetch | src/impl/x86_64/file/fs.cpp:283-299 | keeps the cache in agreement with the devices; changes nothing if all blocks are cached; at the end the last block looked at is cached if it can be read |
| CachedIo.UncachedRun | src/impl/x86_64/file/fs.cpp:347-356 | the longest run, up to 16, of blocks without an entry |
| CachedIo.InstallRun | src/impl/x86_64/file/fs.cpp:358-388 | up to 16 blocks just read are all cached afterwards, and the cache stays in agreement with the devices |
| CachedIo.CopyHotRun | src/impl/x86_64/file/fs.cpp:390-406 | copies device bytes of whole cached blocks, and stops only at the limit or at a block without an entry |
| CachedIo.CachedRead | src/impl/x86_64/file/fs.cpp:408-484 | returns device bytes, and all that were asked for when every block touched is wholly on the device |
| CachedIo.CachedWrite | src/impl/x86_64/file/fs.cpp:486-510 | changes exactly the bytes written and keeps the cache in agreement with the devices |
| CachedIo.BlockLayer.constructor | src/impl/x86_64/file/fs.cpp:165-169 | an empty cache agrees with any devices |
| CachedIo.BlockLayer.Read | src/impl/x86_64/file/fs.cpp:408-484 | a read of the shared state, as CachedRead |
| CachedIo.BlockLayer.Write | src/impl/x86_64/file/fs.cpp:486-510 | a write of the shared state, as CachedWrite |
| Mailbox.AppendSpells | src/impl/x86_64/smp/smp.cpp:453-464 | linking a message in makes the links spell the list with it at the end |
| Mailbox.PopSpells | src/impl/x86_64/idt.cpp:96-105 | unlinking the head makes the links spell the rest of the list |
| Mailbox.StepKeeps | src/impl/x86_64/smp/smp.cpp:433-602 | every step of senders, handlers and the shootdown sender keeps lists, flags and deliveries consistent |
| Mailbox.ListsAreExact | src/impl/x86_64/smp/smp.cpp:433-532 | in every run lists end, repeat nothing, have the right tail and depth; queued iff on the owner's list; listed means unhandled; no shootdown finds its message in use |
| Mailbox.PromiseIsListed | src/impl/x86_64/smp/smp.cpp:443-450 | a promised reschedule has its message on the list whenever no handler runs |
| Mailbox.SendReaches | src/impl/x86_64/smp/smp.cpp:519-557 | a halt or reschedule is queued, or refused with nothing changed: a halt is busy iff an earlier one is on the list or with the handler; a reschedule is pending with its message, or with a handler that has seen it and will switch tasks or count it as deferred |
| Mailbox.FlushIsDelivered | src/impl/x86_64/memory/vmm.cpp:94-153 | a TLB flush returns only after each CPU sent to executed its range exactly once, and no other CPU executed any |
| WaitQueue.StepKeeps | src/impl/x86_64/module/scheduler.cpp:57-121 | every step keeps sleepers listed or about to be woken, and numbers equal to counts of wake-ups |
| WaitQueue.NoLostWakeup | src/impl/x86_64/module/scheduler.cpp:57-121 | in every run a task asleep on an old number is one that a running wake-up has yet to wake; at most 64 different tasks are listed |
| WaitQueue.ReturnsOnlyAfterWake | src/impl/x86_64/module/scheduler.cpp:57-67 | a wait returns only after a wake-up later than the number it was given |
| WorkQueue.QueueReadyDelayed | src/impl/x86_64/smp/workqueue.cpp:110-140 | the in-place loop of the timer does what one pass of the list says |
| WorkQueue.InsertByDue | src/impl/x86_64/smp/workqueue.cpp:255-258 | the insertion loop puts the item behind all items due no later |
| WorkQueue.CancelDelayed | src/impl/x86_64/smp/workqueue.cpp:265-282 | removes the item and says so iff it is on the list |
| WorkQueue.SweepIs | src/impl/x86_64/smp/workqueue.cpp:110-140 | a pass queues exactly the items due and idle at its start, in order, and keeps the others, busy ones postponed |
| WorkQueue.Partition | src/impl/x86_64/smp/workqueue.cpp:110-140 | each item is either queued or kept |
| WorkQueue.KeptSorted | src/impl/x86_64/smp/workqueue.cpp:117-121 | postponing in place keeps the list sorted by due tick |
| WorkQueue.WorkIsAccounted | src/impl/x86_64/smp/workqueue.cpp:59-171 | in every run pending iff queued once, running iff held, first in first out, queued = completed + depth + running, delayed list sorted |
| WorkQueue.NeverEarly | src/impl/x86_64/smp/workqueue.cpp:237-263 | in every run no item whose tick fits in 64 bits is queued before the tick asked for |
| WorkQueue.DueAtOnceIff | src/impl/x86_64/smp/workqueue.cpp:252-252 | a new item is due at once iff its delay is zero or its tick does not fit in 64 bits |
| Glob.MatchComponent | src/impl/x86_64/main.cpp:122-143 | terminates, and on names without a star is right |
| Glob.ScanIsComplete | src/impl/x86_64/main.cpp:122-143 | on names without a star, keeping one backtrack point loses no match |
| Glob.ScanIsSound | src/impl/x86_64/main.cpp:122-143 | on every name, success means there is a match |
| Glob.RightIffNoStar | src/impl/x86_64/main.cpp:122-143 | the matcher is right for every pattern iff the name has no star |
| Paths.PushComponent | src/impl/x86_64/syscall.cpp:347-386 | editing the buffer pushes or pops one component, and fails iff the path gets too long |
| Paths.Scan | src/impl/x86_64/syscall.cpp:395-406 | scanning a path applies its components one by one |
| Paths.Canonicalize | src/impl/x86_64/syscall.cpp:388-414 | computes the path of the component stack, and fails iff the path is empty or gets too long on the way |
| Paths.CanonicalIsPlain | src/impl/x86_64/syscall.cpp:372-414 | a canonical path has no empty, "." or ".." component |
| Paths.ComponentsOfRender | src/impl/x86_64/syscall.cpp:372-414 | splitting a canonical path gives its components back |
| Paths.CanonicalIsIdempotent | src/impl/x86_64/syscall.cpp:388-414 | canonicalizing a canonical path changes nothing, in any directory |
| Paths.TraverseRelative | src/impl/x86_64/file/vfs.cpp:601-633 | walks the components of the path in order, and fails iff one of them does |
| Paths.OpenAt | src/impl/x86_64/file/vfs.cpp:635-642 | walks from the root or from the current directory |
| Paths.RoutesAgree | src/impl/x86_64/file/vfs.cpp:601-642 | if walking from the current directory succeeds, the canonical path leads from the root to the same node |
| Paths.Process.constructor | src/impl/x86_64/syscall.cpp:407-407 | a process without a directory is at the root |
| Paths.Process.Chdir | src/impl/x86_64/syscall.cpp:901-927 | succeeds iff the path fits and names a directory; directory and path stay in step; failure changes nothing |
| Descriptors.ExpandTable | src/impl/x86_64/file/fd.cpp:45-87 | grows to the capacity needed, keeping every slot and every taken descriptor |
| Descriptors.FindClearBit | src/impl/x86_64/file/fd.cpp:29-38 | the lowest free descriptor of a word, or none |
| Descriptors.AllocFd | src/impl/x86_64/file/fd.cpp:89-118 | takes the lowest free descriptor, growth included, and does not fail while the table has a free one |
| Descriptors.ReserveFd | src/impl/x86_64/file/fd.cpp:120-128 | takes exactly the descriptor named and keeps everything below the hint taken |
| Descriptors.ReleaseReservedFd | src/impl/x86_64/file/fd.cpp:130-135 | frees the descriptor iff it holds no file |
| Descriptors.CloseFd | src/impl/x86_64/file/fd.cpp:137-158 | empties the slot, drops one reference, and drops the file with the last |
| Descriptors.Open | src/impl/x86_64/syscall.cpp:473-517 | the file gets the lowest descriptor not in use; failure gives the descriptor back |
| Descriptors.Dup2 | src/impl/x86_64/syscall.cpp:1210-1238 | the new descriptor shares the file, counts stay equal to slots, no other descriptor changes |
| Descriptors.TaskFiles.constructor | src/impl/x86_64/file/fd.cpp:45-49 | an empty table |
| Descriptors.TaskFiles.OpenFile | src/impl/x86_64/syscall.cpp:473-517 | as Open, on the task's table |
| Descriptors.TaskFiles.Close | src/impl/x86_64/file/fd.cpp:137-158 | as CloseFd, on the task's table |
| Descriptors.TaskFiles.Duplicate | src/impl/x86_64/syscall.cpp:1210-1238 | as Dup2, on the task's table |
| UserHeap.SplitKeeps | src/libc/src/malloc.c:84-103 | splitting a block keeps all blocks apart, aligned and mapped |
| UserHeap.MergeKeeps | src/libc/src/malloc.c:112-121 | merging a block with the next keeps all blocks apart, aligned and mapped |
| UserHeap.UnlinkKeeps | src/libc/src/malloc.c:146-151 | unmapping a large block takes nothing from any other |
| UserHeap.LiveIsSafe | src/libc/src/malloc.c:123-137 | a live payload is aligned, large enough, mapped, and clear of every other header and payload |
| UserHeap.FindFree | src/libc/src/malloc.c:105-110 | the first free small block that is large enough, or none |
| UserHeap.NewMapping | src/libc/src/malloc.c:61-82 | one new free block that is large enough, clear of all others |
| UserHeap.Malloc | src/libc/src/malloc.c:123-137 | a new live block of the size asked for; every other live block and its bytes stay; does not fail when a free block fits |
| UserHeap.Free | src/libc/src/malloc.c:139-158 | ends exactly that allocation, joins touching free neighbours, keeps all other blocks and bytes; aborts iff the pointer is not live |
| UserHeap.Calloc | src/libc/src/malloc.c:160-167 | as malloc of the product, zeroed; null when the product wraps |
| UserHeap.Realloc | src/libc/src/malloc.c:169-200 | keeps the bytes both sizes share; has room for the size asked for iff rounding it does not wrap; stays in place when the block is large enough |
| UserHeap.ReallocWrapExample | src/libc/src/malloc.c:169-200 | the largest size wraps to 0, so a live block of 32 bytes is returned unchanged, without room for the size |
| UserHeap.AlignedAlloc | src/libc/src/malloc.c:202-227 | a new live block of the size asked for at an aligned address |

## Left out

- Scheduling, context switches and fairness: blocking with a lock, waking and the run queues are taken as single steps; nothing is claimed about progress.
- The TLB and other hardware state: a shootdown is recorded as executed, not carried out on a TLB.
- Batch installation of blocks while other threads write: the concurrent cache model has single-block loads only, because the source installs data it read earlier without looking again; the sequential model has it.
- CacheCoherence.Next: a device reads or writes one block at a time, atomically.
- BlockCache.Find: proved for every hash function on keys; the mixing function of the source is not written out.
- CachedIo.CachedRead: nodes that are not block devices, which bypass the cache, are not modelled.
- CopyOnWrite.ForkIsolation: covers present 4 KiB pages of ordinary memory and demand-zero entries; protection keys, device mappings and huge user leaves are left out, and reference counts there do not wrap at 32 bits.
- UserWalk.CloneAddressSpace: the leaves of the child are copied, its tables are not built; a child left half-made by a failure is not torn down.
- UserWalk.DestroyAddressSpace: the tables freed are listed, not given back to the model of the allocator.
- UserFrames.RunAll: pages for tables are kernel allocations; the run ends before the leaking fault and before a count would wrap at 32 bits.
- CopyOnWrite.HandleFault: one step, where the source holds no lock between reading a count, allocating and dropping a reference; faults of two spaces on one frame do not overlap in the model.
- Paging.MapRange: leaves without the write-combining flag; protection bits of leaves are left out.
- Pmm.PhysicalMemory.UnrefPage: one step, where the source drops the lock between storing the count and freeing the page; BootRun has the two as separate steps, for callers that count only pages they hold.
- Pmm.PhysicalMemory.Free: takes page numbers; an address inside a page, on which it panics too, has none.
- Boot.FreeWithReservation: the spans left of the range must not overlap; spans that do leave the lists wrong, as BootOverlap.RightIffApart says.
- Boot.HandOver: the spans cut from the map must not overlap, as those of a map without overlapping entries and with proper reserved ranges do not; reading the boot information, its overflow checks and the trampoline page are left out.
- CachedIo.Prefetch: does not say that the first of the two blocks is still cached, because loading the second may take its entry.
- Mailbox.Next: a message is always sent to the CPU that owns it, as all callers do; counters other than depth are left out.
- WorkQueue.Run: one worker; work functions are opaque and re-initialising an item in use is left out.
- WaitQueue.Run: one queue at a time.
- Paths.RoutesAgree: for trees whose nodes are attached to their parents; renaming into a subtree, mounts and the negative lookup cache are left out.
- Paths.PushComponent: memory for the buffer never runs out, and its doubling is not modelled.
- Descriptors.AllocFd: descriptors are unbounded naturals; the conversion of very large ones to a signed int is left out.
- UserHeap.Free: the list is a sequence of headers, so prev and next links and magic numbers are not separate state; a pointer that never was a payload aborts, where the source reads whatever is there.
- UserHeap.Malloc: what a header overwrites is modelled as zero bytes.
- The kernel slab heap, virtual range allocator, drivers, console, ACPI, APIC, ELF and module loading, procfs, devfs and system call wrappers.
