# Oryn: a verified model of its stateful cores

Oryn is a freestanding kernel in C with its own build tool. This project models the parts of it that
keep state and have something to get wrong, and proves that they keep it. Each part has

- a value that is the part's state, with one function for each operation, branch by branch as the C
  does it;
- lemmas that say what those operations keep, restore or return, over every input and every run;
- where the C works in place, a class with the same arrays, links and counters, whose methods are
  proved to do exactly what the functions say. In the table "has the specified effect" means such a
  contract: the new state and the result are the function's, of the old state.

`dafny verify dfyconfig.toml` checks everything.

| part | files |
|---|---|
| physical pages: free array, ownership records, contiguous runs, self-check with in-place heapsort | `Physical*.dfy`, `HeapSort.dfy` |
| kernel heap: block list, slab caches, object caches, self-check | `Heap*.dfy`, `KernelHeap.dfy` |
| console: scrollback, incremental redraw, dirty span | `Console*.dfy`, `TextConsole.dfy` |
| FAT32 image writer: layout loop, chains, directories, bytes | `Fat32*.dfy` |
| build plan, manifests, module start and stop | `BuildPlan.dfy`, `PlanResolver.dfy`, `ManifestValidation.dfy`, `ModuleLifecycle.dfy` |
| scheduler: timer wheel, wait slots, run queues | `TimerWheel.dfy`, `TimerLinks.dfy`, `WaitQueue.dfy`, `RunQueue.dfy`, `RoundRobin.dfy` |
| boot handoff checksum | `HandoffCrc.dfy`, `HandoffChecksum.dfy` |
| facts about lists, sets and division used throughout | `Collections.dfy`, `Arithmetic.dfy` |
| printing and parsing numbers | `NumberText.dfy`, `FormatText.dfy` |

Addresses and 64-bit sizes are naturals, with the wrap at 2^64 written out where the C can reach it
(page rounding, runs of pages, heap size rounding, the 32-bit reference count, negation in the number
parsers). Clocks, callbacks' answers, file contents and module graphs are parameters.

Some things the code does that its callers might not expect, each with its exact condition or a
concrete run in the table:

- Three ownership changes break the page allocator's invariant: `SetPageOwnerExact`,
  `AddReferenceExact` and `ReleaseExact` say exactly which, and `FreeOwnerBreaks`,
  `ForeignOwnerBreaks` and `ReservedReleaseBreaks` are runs from start-up that do it. A memory map that
  gives a page twice breaks it at once (`InitExact`).
- Allocation requests in the last 63 bytes below 2^64 are not refused, because the rounded sizes wrap
  (`AllocateRawRightExactly`).
- A contiguous request aligned to more than a page always fails (`WideAlignmentAlwaysFails`).
- The heap's free-byte counter misses a header for every coalesce; the heap invariant bounds the gap
  by the number of coalesces, and conservation is stated over block sizes instead.
- Dropping a line under a console view pinned at line 0 leaves the shadow stale, exactly when the drop
  can be seen (`NewlineConsistent`, `WriteKeeps`, `StaleRunGoesStale`).
- The FAT layout loop never ends for two of every 130 partition sizes (`LayoutEndsExactly`), and a
  project whose directory is named FONTS hides the font (`FontFound`).
- Resolving a build plan twice yields an empty order (`ResolvedAgain`).
- A gap in ticks can make timers late (`TickTimelyExact`); a full ring loses the pre-empted thread
  (`PreemptFullLoses`); a ring beyond the configured CPUs is picked into CPU 0
  (`PickUnnumberedExact`).
- The checksum cannot tell one pair of values apart (`ChangeDetectedExactly`).
- `strtoull` of a negative number too large is 1, where C11 section 7.22.1.4 asks for the largest
  value (`NegatedUnsigned`); `0x` without digits is no conversion at all, and `strtoll` skips a second
  run of spaces and a second sign. The model follows the code.

## Model

| member | source | states |
|---|---|---|
| PhysicalMemorySpec.InitExact | OrynSDK/Common/Kernel/Source/Memory/KernelPhysicalMemory.c:51-121 | for every memory map: the free array is what the usable entries produce, as far as it fits; initialised exactly when they hold a page at or above 1 MiB; the invariant holds if and only if no page is produced twice before the array is full, so whenever no two entries share such a page, and only then if all pages fit |
| PhysicalMemorySpec.SwapRemoveMembers | OrynSDK/Common/Kernel/Source/Memory/KernelPhysicalMemoryConstraints.c:57-62 | removing a free page by moving the last one into its place takes out that page and no other, and leaves no duplicate |
| PhysicalMemorySpec.AllocateAtKeeps | OrynSDK/Common/Kernel/Source/Memory/KernelPhysicalMemory.c:123-173 | allocating moves exactly one page from the free set to the used pages and keeps the invariant, whether or not a record was left for it |
| PhysicalMemorySpec.ReserveRangeKeeps | OrynSDK/Common/Kernel/Source/Memory/KernelPhysicalMemory.c:175-207 | reserving a range withdraws exactly the free pages inside it, counts them, and keeps the invariant, also when the end of the range wraps at 2^64 |
| PhysicalMemorySpec.ReserveRangeBytes | OrynSDK/Common/Kernel/Source/Memory/KernelPhysicalMemory.c:175-207 | in bytes: of a range ending below the last page, exactly the free pages that share a byte with it are withdrawn |
| PhysicalMemorySpec.EntryPages | OrynSDK/Common/Kernel/Source/Memory/KernelPhysicalMemory.c:51-88 | a page comes from a usable entry exactly when it lies wholly inside |
| PhysicalMemorySpec.PutBackKeeps | OrynSDK/Common/Kernel/Source/Memory/KernelPhysicalMemory.c:217-260 | returning a live recorded page: it was counted as used, there is room for it in the array, and exactly that page becomes free |
| PhysicalMemorySpec.FreePageExact | OrynSDK/Common/Kernel/Source/Memory/KernelPhysicalMemory.c:217-260 | a free succeeds exactly when the page has a live record; then exactly that page moves from used to free, else only the mismatch counters change |
| PhysicalMemorySpec.FreePageRecords | OrynSDK/Common/Kernel/Source/Memory/KernelPhysicalMemory.c:217-260 | a successful free leaves the page on record as Free, without references or tag, and every other record as it was |
| PhysicalMemorySpec.SetPageOwnerExact | OrynSDK/Common/Kernel/Source/Memory/KernelPhysicalMemory.c:305-346 | changing an owner keeps the invariant if and only if the change is refused, or the new owner fits where the page is (free pages may only become Free, used pages anything else, Reserved anywhere not free) |
| PhysicalMemorySpec.SetPageOwnerRecords | OrynSDK/Common/Kernel/Source/Memory/KernelPhysicalMemory.c:305-346 | when an owner change is taken, and what it leaves on record: owner, tag, and a count kept, started at one, or zero when Free; no other record changes |
| PhysicalMemorySpec.AddReferenceExact | OrynSDK/Common/Kernel/Source/Memory/KernelPhysicalMemory.c:348-363 | taking a reference keeps the invariant if and only if the 32-bit count does not wrap to zero |
| PhysicalMemorySpec.AddReferenceCounts | OrynSDK/Common/Kernel/Source/Memory/KernelPhysicalMemory.c:348-363 | a reference is taken exactly of a recorded page that is not Free, and only its 32-bit count changes |
| PhysicalMemorySpec.ReleaseExact | OrynSDK/Common/Kernel/Source/Memory/KernelPhysicalMemory.c:365-400 | dropping a reference keeps the invariant if and only if it is not the last one of a Reserved page; otherwise the page returns to the free list exactly when its last reference goes |
| PhysicalMemorySpec.ReleaseCounts | OrynSDK/Common/Kernel/Source/Memory/KernelPhysicalMemory.c:365-400 | dropping a reference that is not the last lowers that count by one and does nothing else; with none it only counts a mismatch |
| PhysicalMemorySpec.AddThenRelease | OrynSDK/Common/Kernel/Source/Memory/KernelPhysicalMemory.c:348-400 | a reference taken and dropped again leaves everything as it was |
| PhysicalMemorySpec.LiveAtMostUsed | OrynSDK/Common/Kernel/Source/Memory/KernelPhysicalMemory.c:217-260 | there are never more live recorded pages than pages counted as used, so the guards on the used count hide no underflow |
| PhysicalMemorySpec.FreeOwnerBreaks | OrynSDK/Common/Kernel/Source/Memory/KernelPhysicalMemory.c:305-346 | a run from start-up that breaks the invariant: one page is handed out and then called Free |
| PhysicalMemorySpec.ForeignOwnerBreaks | OrynSDK/Common/Kernel/Source/Memory/KernelPhysicalMemory.c:305-346 | another: a page the allocator never had is given an owner |
| PhysicalMemorySpec.ReservedReleaseBreaks | OrynSDK/Common/Kernel/Source/Memory/KernelPhysicalMemory.c:365-400 | another: a page in use is marked Reserved and its last reference dropped |
| PhysicalConstraintsSpec.AllocatePageExact | OrynSDK/Common/Kernel/Source/Memory/KernelPhysicalMemory.c:154-173 | a page comes back exactly when one is free: a free one, which moves to the used pages, recorded for general use while there is room |
| PhysicalConstraintsSpec.AllocatePageBelowExact | OrynSDK/Common/Kernel/Source/Memory/KernelPhysicalMemory.c:123-151 | a page below the limit comes back exactly when a free page lies below it; it moves from the free to the used pages, recorded while there is room; else nothing changes |
| PhysicalConstraintsSpec.PageMatchesExact | OrynSDK/Common/Kernel/Source/Memory/KernelPhysicalMemoryConstraints.c:8-41 | a page meets constraints exactly when it is aligned to a power of two of at least a page, at or above the minimum, and ends at or below the maximum, or below 4 GiB for DMA without one |
| PhysicalConstraintsSpec.AllocateConstrainedExact | OrynSDK/Common/Kernel/Source/Memory/KernelPhysicalMemoryConstraints.c:78-111 | a page comes back exactly when some free page meets the constraints, and it is one of them, and moves to the used pages, recorded with its owner and tag while there is room; else nothing changes |
| PhysicalConstraintsSpec.RunDoesNotWrap | OrynSDK/Common/Kernel/Source/Memory/KernelPhysicalMemoryConstraints.c:143-161 | pages that all lie at or above 1 MiB never wrap at 2^64 within a run, so a run found with wrapping additions is a run of consecutive addresses |
| PhysicalConstraintsSpec.AllocateContiguousExact | OrynSDK/Common/Kernel/Source/Memory/KernelPhysicalMemoryConstraints.c:130-189 | fails exactly when no free page starts a run whose pages are all free and all meet the constraints; else exactly the run's pages leave the free set, each recorded with its owner while record space lasts |
| PhysicalConstraintsSpec.WideAlignmentAlwaysFails | OrynSDK/Common/Kernel/Source/Memory/KernelPhysicalMemoryConstraints.c:130-189 | because the alignment is applied to every page of the run, a request for several pages aligned to more than 4096 bytes always fails and changes nothing |
| PhysicalConstraintsSpec.FreePageReturns | OrynSDK/Common/Kernel/Source/Memory/KernelPhysicalMemoryConstraints.c:191-211 | returning one page of a run leaves the others returnable |
| PhysicalConstraintsSpec.FreeContiguousExact | OrynSDK/Common/Kernel/Source/Memory/KernelPhysicalMemoryConstraints.c:191-211 | freeing a run succeeds exactly when it has a page and every page of it is out and on record |
| PhysicalConstraintsSpec.AllocateThenFreeContiguous | OrynSDK/Common/Kernel/Source/Memory/KernelPhysicalMemoryConstraints.c:130-211 | freeing a run gives back the free set and the used pages as they were before it was allocated |
| HeapSort.HeapSiftDown | OrynSDK/Common/Kernel/Source/Memory/KernelPhysicalMemoryValidation.c:20-50 | sifting restores the heap order below a hole and only permutes the prefix |
| HeapSort.SortPages | OrynSDK/Common/Kernel/Source/Memory/KernelPhysicalMemoryValidation.c:52-82 | the in-place heapsort sorts the free pages and only permutes them |
| HeapSort.RootIsMaximum | OrynSDK/Common/Kernel/Source/Memory/KernelPhysicalMemoryValidation.c:52-82 | the root of a heap is at least every element of it |
| PhysicalValidation.InvariantIsAccepted | OrynSDK/Common/Kernel/Source/Memory/KernelPhysicalMemoryValidation.c:138-242 | in every state of the invariant the self-check's conditions hold: distinct, aligned, high enough free pages, consistent records, and the accounting bound |
| PhysicalValidation.AcceptedMeans | OrynSDK/Common/Kernel/Source/Memory/KernelPhysicalMemoryValidation.c:138-218 | what the self-check accepts, spelled out: counts within the tracked pages, free pages distinct, aligned and at or above 1 MiB, each record Free, unreferenced and listed or none of the three |
| PhysicalValidation.AcceptedUnderPermutation | OrynSDK/Common/Kernel/Source/Memory/KernelPhysicalMemoryValidation.c:52-242 | what the self-check accepts does not depend on the order of the free pages, so sorting them does not change its verdict |
| PhysicalValidation.InvUnderPermutation | OrynSDK/Common/Kernel/Source/Memory/KernelPhysicalMemoryValidation.c:52-242 | nor does the sorting disturb the allocator: the invariant and the set of free pages do not depend on the order of the array |
| PhysicalRun.StepExact | OrynSDK/Common/Kernel/Source/Memory/KernelPhysicalMemory.c:123-400 | one operation keeps the invariant if and only if it is safe (the exact conditions of owner and reference changes); safe operations conserve the tracked pages |
| PhysicalRun.EveryRunFromInit | OrynSDK/Common/Kernel/Source/Memory/KernelPhysicalMemory.c:51-400 | after any safe run from initialisation: invariant, free + used + reserved equals the tracked pages, tracked pages are the initial ones, live records at most the used count, and the self-check accepts |
| PhysicalAllocator.Allocator.constructor | OrynSDK/Common/Kernel/Source/Memory/KernelPhysicalMemory.c:90-121 | initialisation from a memory map yields the state of the specification |
| PhysicalAllocator.Allocator.AddUsableEntry | OrynSDK/Common/Kernel/Source/Memory/KernelPhysicalMemory.c:51-88 | the page loop adds the pages the specification adds |
| PhysicalAllocator.Allocator.AllocatePage | OrynSDK/Common/Kernel/Source/Memory/KernelPhysicalMemory.c:154-173 | takes the last page of the array, as specified |
| PhysicalAllocator.Allocator.AllocatePageBelow | OrynSDK/Common/Kernel/Source/Memory/KernelPhysicalMemory.c:123-151 | scans from the end for a page below the limit, as specified |
| PhysicalAllocator.Allocator.ReserveRange | OrynSDK/Common/Kernel/Source/Memory/KernelPhysicalMemory.c:175-207 | the scan with swap removal has the specified effect and count |
| PhysicalAllocator.Allocator.FreePage | OrynSDK/Common/Kernel/Source/Memory/KernelPhysicalMemory.c:217-260 | has the specified effect and result |
| PhysicalAllocator.Allocator.IsPageInFreeList | OrynSDK/Common/Kernel/Source/Memory/KernelPhysicalMemory.c:263-283 | true exactly when the aligned page is in the array |
| PhysicalAllocator.Allocator.FindPageRecord | OrynSDK/Common/Kernel/Source/Memory/KernelPhysicalMemory.c:286-303 | finds the first record of a page, or the end |
| PhysicalAllocator.Allocator.SetPageOwner | OrynSDK/Common/Kernel/Source/Memory/KernelPhysicalMemory.c:305-346 | has the specified effect and result |
| PhysicalAllocator.Allocator.AddPageReference | OrynSDK/Common/Kernel/Source/Memory/KernelPhysicalMemory.c:348-363 | has the specified effect and result |
| PhysicalAllocator.Allocator.ReleasePageReference | OrynSDK/Common/Kernel/Source/Memory/KernelPhysicalMemory.c:365-400 | has the specified effect and result |
| PhysicalAllocator.Allocator.RemoveFreePageAt | OrynSDK/Common/Kernel/Source/Memory/KernelPhysicalMemoryConstraints.c:57-62 | the array loses the page at the index by swap removal |
| PhysicalAllocator.Allocator.AllocateConstrainedPage | OrynSDK/Common/Kernel/Source/Memory/KernelPhysicalMemoryConstraints.c:78-111 | has the specified effect and result |
| PhysicalAllocator.Allocator.AllocateContiguousPages | OrynSDK/Common/Kernel/Source/Memory/KernelPhysicalMemoryConstraints.c:130-189 | the nested search and the removals have the specified effect and result |
| PhysicalAllocator.Allocator.FreeContiguousPages | OrynSDK/Common/Kernel/Source/Memory/KernelPhysicalMemoryConstraints.c:191-211 | frees page after page and reports whether all succeeded, as specified |
| PhysicalAllocator.Allocator.SortedFreeListContains | OrynSDK/Common/Kernel/Source/Memory/KernelPhysicalMemoryValidation.c:84-119 | on a sorted array the binary search finds a page exactly when it is there |
| PhysicalAllocator.Allocator.ValidateFreePagesSorted | OrynSDK/Common/Kernel/Source/Memory/KernelPhysicalMemoryValidation.c:138-167 | accepts exactly when the pages are distinct, aligned and at or above 1 MiB |
| PhysicalAllocator.Allocator.ValidateOwnershipRecords | OrynSDK/Common/Kernel/Source/Memory/KernelPhysicalMemoryValidation.c:169-199 | accepts exactly when each record is Free, without references and in the list, or not Free, referenced and not in the list |
| PhysicalAllocator.Allocator.ValidateAllocator | OrynSDK/Common/Kernel/Source/Memory/KernelPhysicalMemoryValidation.c:220-242 | returns 1 exactly when initialised and all three conditions hold, sorts the array, changes nothing else of the state, and counts the check and its failure |
| HeapPages.ConsecutivePages | OrynSDK/Common/Kernel/Source/Memory/KernelHeapRaw.c:60-104 | distinct page-aligned addresses whose highest and lowest differ by (n-1) pages are exactly the n consecutive pages from the lowest |
| HeapPages.TakeSpanExact | OrynSDK/Common/Kernel/Source/Memory/KernelHeapRaw.c:60-104 | collecting n pages either takes exactly n consecutive free pages, or fails; a failure gives every recorded page back, and leaves the free set as it was if no record was missing |
| HeapPages.TakeSpanSucceeds | OrynSDK/Common/Kernel/Source/Memory/KernelHeapRaw.c:60-104 | a span can be had exactly when the last n pages of the free array are consecutive, in any order; it is those pages, recorded as the heap's while there is room |
| HeapState.LivePayloadsApart | OrynSDK/Common/Kernel/Source/Memory/KernelHeapRaw.c:166-198 | in the heap invariant two live payloads, headers included, never overlap, and lie in pages the heap holds |
| HeapState.RawPagesTiled | OrynSDK/Common/Kernel/Source/Memory/KernelHeapRaw.c:60-147 | every byte of the raw pages lies in exactly one block's header-and-payload extent |
| HeapRaw.RawAlignExact | OrynSDK/Common/Kernel/Source/Memory/KernelHeap.c:11-14 | rounding up to 16 is exact if and only if the size is at most 2^64-16; beyond that it wraps |
| HeapRaw.SpanPagesIs | OrynSDK/Common/Kernel/Source/Memory/KernelHeapRaw.c:60-75 | a span has the fewest pages that hold the block with its header and rounding |
| HeapRaw.SplitEffect | OrynSDK/Common/Kernel/Source/Memory/KernelHeapRaw.c:122-147 | splitting leaves the block at least the wanted size, puts one free block behind it or nothing, and touches no other block; free bytes change by what the headers take |
| HeapRaw.AddSpanKeeps | OrynSDK/Common/Kernel/Source/Memory/KernelHeapRaw.c:60-120 | adding a span keeps the heap invariant and every allocation; if it succeeds, the first block of the list fits the request |
| HeapRaw.CoalesceKeeps | OrynSDK/Common/Kernel/Source/Memory/KernelHeapRaw.c:40-58 | joining with the next block, if they touch, keeps the tiling, the sums and the bounds on the free bytes |
| HeapRaw.MarkFreeKeeps | OrynSDK/Common/Kernel/Source/Memory/KernelHeapRaw.c:200-233 | freeing a live block: no counter that is lowered would clip at zero |
| HeapRaw.AllocateRawExact | OrynSDK/Common/Kernel/Source/Memory/KernelHeapRaw.c:149-198 | an allocation returns a fresh payload of at least the requested bytes and changes no other; it fails only for size 0, or when no block fits and no span can be had |
| HeapRaw.AllocateTakesFirst | OrynSDK/Common/Kernel/Source/Memory/KernelHeapRaw.c:122-198 | first fit, and the split: the first block free, of the kind asked for and large enough is handed out; a rest is cut exactly when more than 120 bytes would be left, right behind the rounded request and in the list behind its block, free, with those bytes less a header; no other block changes |
| HeapRaw.AllocateGrows | OrynSDK/Common/Kernel/Source/Memory/KernelHeapRaw.c:60-198 | when no block fits, the heap grows exactly when a span of the fewest pages that hold the block, at most 64, can be had; its block heads the list and is handed out, split in the same way |
| HeapRaw.RawBlockEnds | OrynSDK/Common/Kernel/Source/Memory/KernelHeapRaw.c:60-120 | every raw block lies at or above 1 MiB and ends at or below 2^64, so the sums over a block that fits do not wrap |
| HeapRaw.OversizedExact | OrynSDK/Common/Kernel/Source/Memory/KernelHeapRaw.c:60-198 | a request above 2^64-64 gets a block, and one too small, exactly when a page can be had, or for the last 15 sizes any block is free; else it fails and changes no allocation |
| HeapRaw.AllocateRawRightExactly | OrynSDK/Common/Kernel/Source/Memory/KernelHeapRaw.c:60-198 | so an allocation holds what was asked for, in the invariant, if and only if the request is at most 2^64-64 or the result is 0 |
| HeapRaw.FreeRawExact | OrynSDK/Common/Kernel/Source/Memory/KernelHeapRaw.c:200-233 | a free removes exactly the live payload it names; a second free and a foreign pointer change only their error counter |
| HeapRaw.FreeJoinsNext | OrynSDK/Common/Kernel/Source/Memory/KernelHeapRaw.c:40-58 | freeing a live block joins it with the next block of the list exactly when that is free, of the same kind and starts where this one ends: one free block of both sizes and a header, the next gone from the list, the join counted; otherwise the list and every other block stay |
| HeapRaw.AllocateThenFreeRaw | OrynSDK/Common/Kernel/Source/Memory/KernelHeapRaw.c:166-233 | freeing what was just allocated gives back the same set of live payloads |
| HeapSlab.CarvePageKeeps | OrynSDK/Common/Kernel/Source/Memory/KernelHeapSlab.c:15-61 | carving a page into objects keeps every allocation, and adds exactly the objects that were missing |
| HeapSlab.SlabCacheIs | OrynSDK/Common/Kernel/Source/Memory/KernelHeapSlab.c:3-13 | the caches hold up to 32, 64, 128 and 256 bytes, and larger sizes have none |
| HeapSlab.ObjectsPerPageIs | OrynSDK/Common/Kernel/Source/Memory/KernelHeapSlab.c:15-61 | as many objects with their headers are carved from a page as fit on it |
| HeapSlab.GrowKeeps | OrynSDK/Common/Kernel/Source/Memory/KernelHeapSlab.c:15-61 | a cache grows exactly when a page can be had, and then its free list is not empty |
| HeapSlab.ReturnObjectCounts | OrynSDK/Common/Kernel/Source/Memory/KernelHeapSlab.c:91-141 | returning an object: the counters it lowers are all positive |
| HeapSlab.SlabAllocateExact | OrynSDK/Common/Kernel/Source/Memory/KernelHeapSlab.c:63-89 | fails exactly when the free list is empty and no page can be had; else returns a fresh object at least as large as asked |
| HeapSlab.SlabAllocateIs | OrynSDK/Common/Kernel/Source/Memory/KernelHeapSlab.c:63-89 | the object is of the cache asked for, its size the cache's: the head of the free list, or one on the page just taken, the last of the free array |
| HeapSlab.SlabFreeExact | OrynSDK/Common/Kernel/Source/Memory/KernelHeapSlab.c:91-141 | accepts exactly slab objects; a live one leaves the live set, a free one only counts a double free |
| HeapApi.KmallocExact | OrynSDK/Common/Kernel/Source/Memory/KernelHeap.c:179-191 | kmalloc, by slab or raw block, returns 0 and changes no allocation, or adds exactly one fresh allocation of the requested size |
| HeapApi.KmallocSucceeds | OrynSDK/Common/Kernel/Source/Memory/KernelHeap.c:179-191 | kmalloc succeeds exactly when the smallest cache that holds up to 256 bytes has an object or can have a page, or some raw block fits, or a span can be had; it takes the slab object if it can |
| HeapApi.KmallocRightExactly | OrynSDK/Common/Kernel/Source/Memory/KernelHeap.c:179-191 | kmalloc keeps that promise if and only if the request is at most 2^64-64 or it returns 0 |
| HeapApi.KfreeExact | OrynSDK/Common/Kernel/Source/Memory/KernelHeap.c:193-204 | for every pointer at all, kfree keeps the invariant and removes exactly the live allocation behind that pointer, if there is one |
| HeapApi.KreallocExact | OrynSDK/Common/Kernel/Source/Memory/KernelHeap.c:206-242 | on a live pointer: size 0 frees it; not larger than requested keeps the pointer and shrinks the request; larger moves to a fresh allocation, or fails and changes nothing |
| HeapApi.KreallocIs | OrynSDK/Common/Kernel/Source/Memory/KernelHeap.c:206-242 | reallocating a null pointer is kmalloc; growing a live allocation succeeds exactly when kmalloc of the new size does, with its pointer |
| HeapApi.KreallocKeeps | OrynSDK/Common/Kernel/Source/Memory/KernelHeap.c:206-242 | krealloc keeps the invariant for every pointer, live or not |
| HeapApi.KcallocExact | OrynSDK/Common/Kernel/Source/Memory/KernelHeap.c:244-259 | kcalloc allocates the product of its arguments, and returns 0 when the product does not fit 64 bits |
| HeapApi.KcallocIs | OrynSDK/Common/Kernel/Source/Memory/KernelHeap.c:244-259 | a product that fits 64 bits is allocated as kmalloc does; any other is refused and counted as failed |
| HeapApi.KcallocRightExactly | OrynSDK/Common/Kernel/Source/Memory/KernelHeap.c:244-259 | kcalloc keeps it if and only if the product is at most 2^64-64, or too large for 64 bits, or it returns 0 |
| HeapContents.StoredRepresents | OrynSDK/Common/Kernel/Source/Memory/KernelHeapInternal.h:23-38 | every header field, list link and free link written into memory can be read back: no two of these places overlap |
| HeapContents.StoredKeeps | OrynSDK/Common/Kernel/Source/Memory/KernelHeapRaw.c:60-233 | no header and no link lies in a live payload, so writing all of them leaves every payload's bytes |
| HeapContents.KmallocContents | OrynSDK/Common/Kernel/Source/Memory/KernelHeap.c:179-191 | kmalloc leaves the bytes of every allocation, growth, carving and splitting included, and memory then spells out the new heap |
| HeapContents.KfreeContents | OrynSDK/Common/Kernel/Source/Memory/KernelHeap.c:193-204 | so does kfree, marking and joining included, for every allocation but the one it ends |
| HeapContents.KreallocContents | OrynSDK/Common/Kernel/Source/Memory/KernelHeap.c:206-242 | reallocating keeps the bytes as far as both sizes reach, and every other allocation keeps its own: neither the copy nor the free of the old block disturbs them; when memory is short the old bytes stay; memory spells out the new heap |
| HeapContents.KcallocContents | OrynSDK/Common/Kernel/Source/Memory/KernelHeap.c:244-259 | a successful kcalloc hands out exactly the requested bytes, all zero, and clears nobody else's |
| HeapObjects.CreateObjectCacheIs | OrynSDK/Common/Kernel/Source/Memory/KernelHeapObjectCache.c:32-61 | creation succeeds exactly for an index below the cache count and a size from 1 to 256, or one that wraps when rounded; up to 256 the cache then holds the size rounded up to 16, on the smallest slab object that holds it; otherwise nothing changes |
| HeapObjects.CreateObjectCacheExact | OrynSDK/Common/Kernel/Source/Memory/KernelHeapObjectCache.c:32-61 | configuring an object cache keeps the heap's invariant if and only if it is refused, or the cache has no active objects and the size does not wrap when rounded |
| HeapObjects.ObjectAllocExact | OrynSDK/Common/Kernel/Source/Memory/KernelHeapObjectCache.c:63-95 | an object allocation adds one live payload of the cache's object size, stamped with the cache, or changes no allocation |
| HeapObjects.ObjectAllocSucceeds | OrynSDK/Common/Kernel/Source/Memory/KernelHeapObjectCache.c:63-95 | an object can be had exactly from a configured cache whose slab cache has an object or can have a page; it has room for the cache's object size and is stamped with the cache |
| HeapRun.ObjectsHoldTheirSize | OrynSDK/Common/Kernel/Source/Memory/KernelHeapObjectCache.c:32-95 | after a cache is created, and any run of heap operations that does not set it up again, every object allocated from the cache has room for the size asked for at creation |
| HeapObjects.ObjectFreeExact | OrynSDK/Common/Kernel/Source/Memory/KernelHeapObjectCache.c:97-134 | a free is accepted exactly for a live object stamped with that cache, and then removes it |
| HeapRun.HeapInitEstablishes | OrynSDK/Common/Kernel/Source/Memory/KernelHeap.c:132-172 | initialisation over any allocator state in its invariant yields an empty heap in the heap's invariant |
| HeapRun.StartLeavesOneBlock | OrynSDK/Common/Kernel/Source/Memory/KernelHeap.c:132-172 | start-up succeeds exactly when a page is free, and leaves exactly one free block of 4040 bytes on the last free page: the allocation it makes is split and joined again |
| HeapRun.CriticalIs | OrynSDK/Common/Kernel/Source/Memory/KernelHeapGuard.c:90-123 | a critical allocation is a critical raw block, and costs the last free page for its guard when there is one |
| HeapRun.CacheStays | OrynSDK/Common/Kernel/Source/Memory/KernelHeapObjectCache.c:32-134 | how an object cache is set up changes only when it is set up again |
| HeapRun.StepKeeps | OrynSDK/Common/Kernel/Source/Memory/KernelHeap.c:179-259 | every heap operation, for requests up to 2^64-64 and safe for object caches, keeps the heap invariant |
| HeapRun.InvariantPassesChecks | OrynSDK/Common/Kernel/Source/Memory/KernelHeapValidation.c:3-139 | in every state of the invariant all sums, counts and cache conditions compared by the self-check agree |
| HeapRun.WrongCountNoticed | OrynSDK/Common/Kernel/Source/Memory/KernelHeapValidation.c:74-132 | in a heap otherwise in its invariant the self-check notices any one counter that is off, the requested bytes when there are too few |
| HeapRun.WrongBlockNoticed | OrynSDK/Common/Kernel/Source/Memory/KernelHeapValidation.c:3-72 | it notices a header that is not a raw block's, and a cache that counts more objects than its pages hold |
| HeapRun.EveryHeapRun | OrynSDK/Common/Kernel/Source/Memory/KernelHeapValidation.c:3-139 | after any run from start-up: live payloads never overlap, headers and payloads of the raw blocks sum to 4096 times the raw pages, and all comparisons of the self-check agree |
| HeapLinks.LinkFront | OrynSDK/Common/Kernel/Source/Memory/KernelHeapRaw.c:3-12 | linking at the head keeps the doubly linked list well formed with the block in front |
| HeapLinks.LinkBehind | OrynSDK/Common/Kernel/Source/Memory/KernelHeapRaw.c:122-147 | linking a split block behind its block keeps the list well formed |
| HeapLinks.Unlink | OrynSDK/Common/Kernel/Source/Memory/KernelHeapRaw.c:14-32 | unlinking keeps the list well formed without the block |
| KernelHeap.KernelHeap.LinkBlock | OrynSDK/Common/Kernel/Source/Memory/KernelHeapRaw.c:3-12 | the list gains the block at its front |
| KernelHeap.KernelHeap.UnlinkBlock | OrynSDK/Common/Kernel/Source/Memory/KernelHeapRaw.c:14-32 | the list loses exactly that block |
| KernelHeap.KernelHeap.FindFreeBlock | OrynSDK/Common/Kernel/Source/Memory/KernelHeapRaw.c:149-164 | the first free block that fits, critical or not, or 0 |
| KernelHeap.KernelHeap.AddHeapSpan | OrynSDK/Common/Kernel/Source/Memory/KernelHeapRaw.c:60-120 | has the specified effect and result |
| KernelHeap.KernelHeap.SplitBlockIfUseful | OrynSDK/Common/Kernel/Source/Memory/KernelHeapRaw.c:122-147 | has the specified effect |
| KernelHeap.KernelHeap.CoalesceWithNext | OrynSDK/Common/Kernel/Source/Memory/KernelHeapRaw.c:40-58 | has the specified effect |
| KernelHeap.KernelHeap.AllocateRaw | OrynSDK/Common/Kernel/Source/Memory/KernelHeapRaw.c:166-198 | has the specified effect and result |
| KernelHeap.KernelHeap.FreeRaw | OrynSDK/Common/Kernel/Source/Memory/KernelHeapRaw.c:200-233 | has the specified effect |
| KernelHeap.KernelHeap.GrowSlabCache | OrynSDK/Common/Kernel/Source/Memory/KernelHeapSlab.c:15-61 | has the specified effect and result |
| KernelHeap.KernelHeap.SlabAllocate | OrynSDK/Common/Kernel/Source/Memory/KernelHeapSlab.c:63-89 | has the specified effect and result |
| KernelHeap.KernelHeap.SlabFree | OrynSDK/Common/Kernel/Source/Memory/KernelHeapSlab.c:91-141 | has the specified effect and result |
| KernelHeap.KernelHeap.Kmalloc | OrynSDK/Common/Kernel/Source/Memory/KernelHeap.c:179-191 | has the specified effect and result, and allocates as KmallocExact says |
| KernelHeap.KernelHeap.Kfree | OrynSDK/Common/Kernel/Source/Memory/KernelHeap.c:193-204 | has the specified effect, and removes exactly the live allocation named |
| KernelHeap.KernelHeap.Krealloc | OrynSDK/Common/Kernel/Source/Memory/KernelHeap.c:206-242 | has the specified effect and result, and keeps the invariant |
| KernelHeap.KernelHeap.Kcalloc | OrynSDK/Common/Kernel/Source/Memory/KernelHeap.c:244-259 | has the specified effect and result |
| KernelHeap.KernelHeap.AllocateCritical | OrynSDK/Common/Kernel/Source/Memory/KernelHeapGuard.c:90-123 | has the specified effect and result on the heap: a critical raw block, then a page for its guard |
| KernelHeap.KernelHeap.CreateObjectCache | OrynSDK/Common/Kernel/Source/Memory/KernelHeapObjectCache.c:32-61 | has the specified effect and result |
| KernelHeap.KernelHeap.ObjectAlloc | OrynSDK/Common/Kernel/Source/Memory/KernelHeapObjectCache.c:63-95 | has the specified effect and result |
| KernelHeap.KernelHeap.ObjectFree | OrynSDK/Common/Kernel/Source/Memory/KernelHeapObjectCache.c:97-134 | has the specified effect |
| KernelHeap.KernelHeap.ValidateRawBlocks | OrynSDK/Common/Kernel/Source/Memory/KernelHeapValidation.c:3-45 | on a well-linked list of any contents: passes exactly when every magic is right and there are at most 65535 blocks, and returns the sums over the allocated blocks |
| KernelHeap.KernelHeap.ValidateSlabCaches | OrynSDK/Common/Kernel/Source/Memory/KernelHeapValidation.c:47-72 | passes exactly when every cache is within its capacity, and returns the slab totals |
| KernelHeap.KernelHeap.ValidateObjectCaches | OrynSDK/Common/Kernel/Source/Memory/KernelHeapObjectCache.c:146-170 | passes exactly when every configured cache is consistent and the active objects add up |
| KernelHeap.KernelHeap.Validate | OrynSDK/Common/Kernel/Source/Memory/KernelHeapValidation.c:74-139 | on any well-linked state: passes exactly when everything it compares agrees and there are at most 65535 blocks; in the invariant only the bound can fail it |
| KernelHeap.KernelHeap.Start | OrynSDK/Common/Kernel/Source/Memory/KernelHeap.c:132-172 | the start-up allocation, free and self-check leave an empty heap in its invariant |
| ConsoleInvariants.PresentDirtyLineSyncs | OrynSDK/Common/Kernel/Source/Console/KernelConsoleDrawing.c:69-82 | presenting the dirty line makes the whole screen equal the shadow |
| ConsoleInvariants.CodeIs | OrynSDK/Common/Kernel/Source/Console/KernelConsoleDrawing.c:343-344 | a display word has the character in its low byte and the attribute in its high byte |
| ConsoleInvariants.RenderShows | OrynSDK/Common/Kernel/Source/Console/KernelConsoleScrolling.c:74-102 | a full redraw shows at each of 25 by 80 places, character and attribute byte by byte, the stored cell that many lines below the top of the view, and blanks beyond the lines there are |
| ConsoleInvariants.MarkDirtyIs | OrynSDK/Common/Kernel/Source/Console/KernelConsoleDrawing.c:37-67 | marking a cell makes the dirty span reach it and no further; a span on another row is presented first |
| ConsoleInvariants.DrawAndMarkSyncs | OrynSDK/Common/Kernel/Source/Console/KernelConsoleDrawing.c:37-67 | after a cell is drawn and marked the screen still differs from the shadow only inside the dirty span |
| ConsoleInvariants.NewlineIsFullRedraw | OrynSDK/Common/Kernel/Source/Console/KernelConsoleScrolling.c:29-172 | following the tail, a new line ends in exactly the state a full redraw of the new view would give: the shift-and-draw fast path and the present-only path both refine it |
| ConsoleInvariants.FullRedrawUnreachable | OrynSDK/Common/Kernel/Source/Console/KernelConsoleScrolling.c:149-171 | following the tail, a new line takes the fast path or leaves the view in place: the branch that redraws everything is never reached |
| ConsoleInvariants.NewlinePlaces | OrynSDK/Common/Kernel/Source/Console/KernelConsoleScrolling.c:127-172 | a new line keeps: one more line than the current one, the view within bounds and at the tail exactly when it follows, the screen behind only inside the dirty span |
| ConsoleInvariants.NewlineConsistent | OrynSDK/Common/Kernel/Source/Console/KernelConsoleScrolling.c:110-172 | a new line keeps the shadow a full redraw of the view if and only if no line is dropped under a view pinned at line 0 that does not follow the tail, or the first 26 stored lines look alike |
| ConsoleInvariants.PutCellConsistent | OrynSDK/Common/Kernel/Source/Console/KernelConsoleScrolling.c:174-200 | storing and drawing a character keeps the shadow a full redraw of the view |
| ConsoleInvariants.WriteKeeps | OrynSDK/Common/Kernel/Source/Console/KernelConsoleScrolling.c:291-320 | every character keeps the console's invariant, and keeps the shadow a full redraw if and only if the new line it may cause (its own, a wrap, or one within a tab) drops no line under a pinned view, or the first 26 lines look alike |
| ConsoleInvariants.ScrollUpIs | OrynSDK/Common/Kernel/Source/Console/KernelConsoleScrolling.c:323-342 | the view moves up by that many lines or to the top, stops following, and all is redrawn; it moves exactly when it is not at the top |
| ConsoleInvariants.ScrollDownIs | OrynSDK/Common/Kernel/Source/Console/KernelConsoleScrolling.c:344-369 | the view moves down by that many lines or to the bottom, where it follows the tail again; it moves exactly when it is above the bottom |
| ConsoleInvariants.ScrollToBottomIs | OrynSDK/Common/Kernel/Source/Console/KernelConsoleScrolling.c:383-393 | the view shows the last 25 lines, follows, and all is redrawn |
| ConsoleInvariants.ScrollUpThenDown | OrynSDK/Common/Kernel/Source/Console/KernelConsoleScrolling.c:323-369 | scrolling up and down again by as much comes back to the same view |
| ConsoleHistory.NewlineHolds | OrynSDK/Common/Kernel/Source/Console/KernelConsoleScrolling.c:110-172 | a new line keeps the store equal to the last 512 lines of the unbounded history |
| ConsoleHistory.StoreHolds | OrynSDK/Common/Kernel/Source/Console/KernelConsoleScrolling.c:174-200 | a printable character, wrapping at column 80, does to the store what it does to the history |
| ConsoleHistory.StepKeeps | OrynSDK/Common/Kernel/Source/Console/KernelConsoleScrolling.c:277-393 | every operation keeps the invariant and the refinement of the history, and keeps the shadow a full redraw if and only if it does not visibly drop a line under a pinned view |
| ConsoleHistory.EveryConsoleRun | OrynSDK/Common/Kernel/Source/Console/KernelConsoleScrolling.c:234-393 | in every run from power-on the store is the end of the history and the view follows exactly at the tail; the shadow is a full redraw after every step if and only if no step visibly drops a line under a pinned view; and it is one whenever the view is not at line 0 of a full scrollback |
| ConsoleHistory.NewlineShowsTail | OrynSDK/Common/Kernel/Source/Console/KernelConsoleScrolling.c:127-172 | after each new line while following, every screen word has in its low byte the character and in its high byte the attribute at that place of the end of the unbounded history |
| ConsoleHistory.PowerOnScreen | OrynSDK/Common/Kernel/Source/Console/KernelConsoleScrolling.c:234-275 | at power-on every place shows a space in white on black, and the cursor is at the start of line 0 |
| ConsoleHistory.CursorMoves | OrynSDK/Common/Kernel/Source/Console/KernelConsoleScrolling.c:174-320 | a character takes the cursor one column on, after column 80 first to a new line; a new line to the next of 512 lines, a return to column 0 |
| ConsoleHistory.StaleRunGoesStale | OrynSDK/Common/Kernel/Source/Console/KernelConsoleScrolling.c:110-172 | a concrete run that leaves the shadow stale: a letter, 511 new lines, scroll to the top, one more new line |
| TextConsole.Console.constructor | OrynSDK/Common/Kernel/Source/Console/KernelConsoleScrolling.c:234-275 | power-on in VGA mode yields an empty, drawn console in its invariant, whatever the display held |
| TextConsole.Console.RenderCell | OrynSDK/Common/Kernel/Source/Console/KernelConsoleDrawing.c:323-368 | one place of the flat shadow buffer takes the shown cell's code |
| TextConsole.Console.PresentVga | OrynSDK/Common/Kernel/Source/Console/KernelConsoleStateAndGlyphs.c:285-306 | the display equals the shadow |
| TextConsole.Console.PresentVgaRow | OrynSDK/Common/Kernel/Source/Console/KernelConsoleStateAndGlyphs.c:308-327 | one display row equals the shadow's |
| TextConsole.Console.PresentDirtyLine | OrynSDK/Common/Kernel/Source/Console/KernelConsoleDrawing.c:69-82 | has the specified effect |
| TextConsole.Console.MarkDirtyCell | OrynSDK/Common/Kernel/Source/Console/KernelConsoleDrawing.c:37-67 | has the specified effect |
| TextConsole.Console.VgaMoveShadowUpOneLine | OrynSDK/Common/Kernel/Source/Console/KernelConsoleScrolling.c:2-27 | each row of the shadow becomes the one below it, and the bottom row goes blank |
| TextConsole.Console.FastTailScrollPresent | OrynSDK/Common/Kernel/Source/Console/KernelConsoleScrolling.c:29-72 | has the specified effect |
| TextConsole.Console.RenderVisible | OrynSDK/Common/Kernel/Source/Console/KernelConsoleScrolling.c:74-102 | has the specified effect: the shadow is a full redraw, presented |
| TextConsole.Console.ClearLogicalLine | OrynSDK/Common/Kernel/Source/Console/KernelConsoleDrawing.c:161-173 | one stored line becomes blank |
| TextConsole.Console.ShiftScrollbackUp | OrynSDK/Common/Kernel/Source/Console/KernelConsoleScrolling.c:110-125 | every line moves up one, the last goes blank, an unpinned view moves along |
| TextConsole.Console.AppendNewLine | OrynSDK/Common/Kernel/Source/Console/KernelConsoleScrolling.c:127-172 | has the specified effect |
| TextConsole.Console.StorePrintable | OrynSDK/Common/Kernel/Source/Console/KernelConsoleScrolling.c:174-200 | has the specified effect |
| TextConsole.Console.WriteChar | OrynSDK/Common/Kernel/Source/Console/KernelConsoleScrolling.c:291-320 | has the specified effect |
| TextConsole.Console.ScrollUpLines | OrynSDK/Common/Kernel/Source/Console/KernelConsoleScrolling.c:323-342 | has the specified effect and result |
| TextConsole.Console.ScrollDownLines | OrynSDK/Common/Kernel/Source/Console/KernelConsoleScrolling.c:344-369 | has the specified effect and result |
| TextConsole.Console.ScrollToBottom | OrynSDK/Common/Kernel/Source/Console/KernelConsoleScrolling.c:383-393 | has the specified effect |
| TextConsole.Console.ClearScrollback | OrynSDK/Common/Kernel/Source/Console/KernelConsoleDrawing.c:175-187 | has the specified effect |
| TextConsole.Console.ClearScreen | OrynSDK/Common/Kernel/Source/Console/KernelConsoleScrolling.c:277-289 | has the specified effect |
| Fat32Layout.SizedExact | OrynSDK/Targets/UEFI/X64/OrynBuild/Fat32Image.c:57-76 | the partitions considered, 34 to 0x3FFFFFA0 sectors, are exactly those with room for two FAT copies on which the first turn does not overflow 32 bits |
| Fat32Layout.RequiredHasRoom | OrynSDK/Targets/UEFI/X64/OrynBuild/Fat32Image.c:62-76 | no turn of the layout loop leaves the partition or wraps 32 bits |
| Fat32Layout.SettledIsTarget | OrynSDK/Targets/UEFI/X64/OrynBuild/Fat32Image.c:62-76 | the loop has a fixpoint exactly when the partition less 30 sectors leaves a remainder other than 1 or 2 modulo 130, and then only one |
| Fat32Layout.StepCloses | OrynSDK/Targets/UEFI/X64/OrynBuild/Fat32Image.c:62-76 | every turn that is not at the fixpoint gets strictly closer to it |
| Fat32Layout.LayoutEndsExactly | OrynSDK/Targets/UEFI/X64/OrynBuild/Fat32Image.c:57-81 | for every partition on which the 32-bit sums do not overflow the loop ends if and only if that remainder is not 1 or 2, and at the one fixpoint |
| Fat32Layout.LayoutFits | OrynSDK/Targets/UEFI/X64/OrynBuild/Fat32Image.c:57-81 | at the fixpoint every cluster's entry lies inside its own FAT copy, no smaller copy would do, and the data area ends at the partition's end |
| Fat32Layout.DiskLayout | OrynSDK/Targets/UEFI/X64/OrynBuild/Fat32Image.c:7-14 | for this disk: 129024 sectors settle at 993 FAT sectors and 127006 clusters |
| Fat32Disk.ChainFollowed | OrynSDK/Targets/UEFI/X64/OrynBuild/Fat32Image.c:173-196 | following the entries of a chain of n clusters visits exactly those n clusters and stops at the end mark |
| Fat32Disk.AllocateChainExact | OrynSDK/Targets/UEFI/X64/OrynBuild/Fat32Image.c:165-196 | a fresh chain is a chain of exactly the clusters past the last one taken, zeroed, and nothing else changes |
| Fat32Disk.WriteFileFrame | OrynSDK/Targets/UEFI/X64/OrynBuild/Fat32Image.c:270-285 | writing a file of any length changes no FAT entry and no cluster outside its chain |
| Fat32Disk.ReadBack | OrynSDK/Targets/UEFI/X64/OrynBuild/Fat32Image.c:270-285 | for every content and size, following the chain and taking the size returns the bytes written |
| Fat32Disk.ReadBackExact | OrynSDK/Targets/UEFI/X64/OrynBuild/Fat32Image.c:270-285 | a file written along a chain is read back if and only if the chain is long enough for it |
| Fat32Disk.EntryRoundTrip | OrynSDK/Targets/UEFI/X64/OrynBuild/Fat32Image.c:198-220 | a directory entry written is read back, and the other fifteen entries stay |
| Fat32Disk.FillNameIs | OrynSDK/Targets/UEFI/X64/OrynBuild/Fat32Image.c:198-209 | a short name is the base padded to eight bytes and the extension padded to three |
| Fat32Image.TakeAllChain | OrynSDK/Targets/UEFI/X64/OrynBuild/Fat32Image.c:365-378 | of any number of chains taken in turn, each starts where the ones before it end, so no two share a cluster |
| Fat32Image.PutEntriesList | OrynSDK/Targets/UEFI/X64/OrynBuild/Fat32Image.c:211-226 | entries put into a blank cluster are exactly what the directory then lists |
| Fat32Image.BuildExact | OrynSDK/Targets/UEFI/X64/OrynBuild/Fat32Image.c:360-402 | the finished image has every chain, all six directories as planned, and every file readable |
| Fat32Image.FileChainsDisjoint | OrynSDK/Targets/UEFI/X64/OrynBuild/Fat32Image.c:360-402 | in the finished image the file chains are max(1, ceil(size/512)) clusters long, end properly, and share no cluster |
| Fat32Image.BootFileFound | OrynSDK/Targets/UEFI/X64/OrynBuild/Fat32Image.c:380-397 | walking \EFI\BOOT\BOOTX64.EFI by name from the root, through entries marked as directories to one that is not, returns exactly the boot file |
| Fat32Image.KernelFound | OrynSDK/Targets/UEFI/X64/OrynBuild/Fat32Image.c:380-398 | the same walk to the kernel returns exactly the kernel if and only if its directory is not named like a dot entry |
| Fat32Image.FontFound | OrynSDK/Targets/UEFI/X64/OrynBuild/Fat32Image.c:380-402 | the same walk to the font returns exactly the font if and only if the kernel directory is not itself named FONTS |
| Fat32Image.KindsTold | OrynSDK/Targets/UEFI/X64/OrynBuild/Fat32Image.c:380-397 | folders are marked 0x10 and files 0x20, so a reader that looks at the directory bit tells them apart |
| Fat32Image.DotsLead | OrynSDK/Targets/UEFI/X64/OrynBuild/Fat32Image.c:222-226 | each directory starts with itself and the directory above, by their dot names, marked as directories |
| Fat32Image.FatBesideChains | OrynSDK/Targets/UEFI/X64/OrynBuild/Fat32Image.c:158-163 | beside the chains the FAT has the media entry, an end mark in entry 1, and every cluster that is not needed free |
| Fat32Bytes.EntryWritten | OrynSDK/Targets/UEFI/X64/OrynBuild/Fat32Image.c:144-156 | in the image's bytes, writing an entry of one FAT copy changes that entry of that copy and no cluster |
| Fat32Bytes.ClusterWritten | OrynSDK/Targets/UEFI/X64/OrynBuild/Fat32Image.c:51-55 | in the image's bytes, writing into a cluster changes no FAT entry and no other cluster |
| Fat32Headers.MbrRead | OrynSDK/Targets/UEFI/X64/OrynBuild/Fat32Image.c:83-98 | the partition sector reads back its place, size, type and signature, and nothing else in front of the FAT changed |
| Fat32Headers.BootRead | OrynSDK/Targets/UEFI/X64/OrynBuild/Fat32Image.c:100-132 | a boot sector reads back its volume, FAT and name fields, drive number and signature, and nothing outside the sector changed |
| Fat32Headers.BootTexts | OrynSDK/Targets/UEFI/X64/OrynBuild/Fat32Image.c:100-132 | byte by byte: the jump, the names ORYN, ORYN ESP and FAT32, tracks and heads, no mirroring flags, version 0, and the serial number |
| Fat32Headers.FsInfoRead | OrynSDK/Targets/UEFI/X64/OrynBuild/Fat32Image.c:134-142 | the information sector reads back its signatures, a free count of unknown, and the next cluster, and nothing outside the sector changed |
| Fat32Headers.HeadersRead | OrynSDK/Targets/UEFI/X64/OrynBuild/Fat32Image.c:361-364 | after all four writes every geometry field, in the partition table (boot flag, type 0xEF, place, size) and in either boot sector (sizes, FAT copies, root cluster, information and backup sector, media, signature), has its value, written as a number |
| Fat32Writer.ComputeFatLayout | OrynSDK/Targets/UEFI/X64/OrynBuild/Fat32Image.c:57-81 | the loop itself ends, at the fixpoint, for every partition that has one |
| Fat32Writer.Writer.SetFat | OrynSDK/Targets/UEFI/X64/OrynBuild/Fat32Image.c:150-156 | both FAT copies take the value and still agree |
| Fat32Writer.Writer.InitializeFat | OrynSDK/Targets/UEFI/X64/OrynBuild/Fat32Image.c:158-163 | the first three entries are set in both copies |
| Fat32Writer.Writer.AllocateCluster | OrynSDK/Targets/UEFI/X64/OrynBuild/Fat32Image.c:165-171 | has the specified effect and result |
| Fat32Writer.Writer.AllocateChain | OrynSDK/Targets/UEFI/X64/OrynBuild/Fat32Image.c:173-196 | the linking loop makes exactly the specified chain |
| Fat32Writer.Writer.WriteFileData | OrynSDK/Targets/UEFI/X64/OrynBuild/Fat32Image.c:270-285 | the copy loop along the FAT has the specified effect, for data of any length |
| Fat32Writer.Writer.WriteDirEntry | OrynSDK/Targets/UEFI/X64/OrynBuild/Fat32Image.c:198-220 | the field writes make exactly the specified entry |
| Fat32Writer.Writer.WriteDotEntries | OrynSDK/Targets/UEFI/X64/OrynBuild/Fat32Image.c:222-226 | the first two entries name the directory and its parent |
| Fat32Writer.Writer.WriteMbr | OrynSDK/Targets/UEFI/X64/OrynBuild/Fat32Image.c:83-98 | sector 0 gets exactly the bytes of the specified partition table |
| Fat32Writer.Writer.WriteBootSector | OrynSDK/Targets/UEFI/X64/OrynBuild/Fat32Image.c:100-132 | the sector gets exactly the bytes of the specified boot sector |
| Fat32Writer.Writer.WriteFsInfo | OrynSDK/Targets/UEFI/X64/OrynBuild/Fat32Image.c:134-142 | the sector gets exactly the bytes of the specified information sector |
| Fat32Writer.Writer.CreateImage | OrynSDK/Targets/UEFI/X64/OrynBuild/Fat32Image.c:360-402 | on a zeroed buffer the bytes hold exactly the planned image, both FAT copies agree, and a reader of the partition table and boot sector learns the layout used, from either boot sector |
| Fat32Writer.Writer.constructor | OrynSDK/Targets/UEFI/X64/OrynBuild/Fat32Image.c:348-360 | a zeroed 64 MiB image with the layout of its partition |
| BuildPlan.ResolveKeeps | OrynSDK/Targets/UEFI/X64/OrynBuild/BuildPlanResolve.c:18-71 | a successful visit keeps the order topological, takes back every visiting mark and resolves the module asked for |
| BuildPlan.ResolveFails | OrynSDK/Targets/UEFI/X64/OrynBuild/BuildPlanResolve.c:18-71 | a failed visit means a requirement that names no module, or requirements that run in a circle |
| BuildPlan.FullOrderMeans | OrynSDK/Targets/UEFI/X64/OrynBuild/BuildPlanResolve.c:18-92 | a complete topological order leaves no missing requirement and no cycle |
| BuildPlan.ResolvePlanExact | OrynSDK/Targets/UEFI/X64/OrynBuild/BuildPlanResolve.c:73-92 | on every module graph resolving ends; it succeeds exactly when every requirement names a module and there is no cycle, and then the order is a permutation of all modules with each after everything it requires |
| BuildPlan.ResolvedAgain | OrynSDK/Targets/UEFI/X64/OrynBuild/BuildPlanResolve.c:73-92 | marks are not cleared between calls: resolving a resolved plan again succeeds with an empty order |
| PlanResolver.ArchivePlan.FindModuleIndex | OrynSDK/Targets/UEFI/X64/OrynBuild/BuildPlanResolve.c:5-16 | the first module of the name, or -1 |
| PlanResolver.ArchivePlan.ResolveModuleIndex | OrynSDK/Targets/UEFI/X64/OrynBuild/BuildPlanResolve.c:18-71 | the recursion over marks and order array does what the specified walk does, and never overruns the array |
| PlanResolver.ArchivePlan.ResolveKernelArchivePlan | OrynSDK/Targets/UEFI/X64/OrynBuild/BuildPlanResolve.c:73-92 | succeeds exactly when the graph is complete and acyclic, and then fills the order array topologically |
| ManifestValidation.VisitOnlyMarks | OrynSDK/Targets/UEFI/X64/OrynBuild/BuildKernelModuleManifestValidate.c:134-168 | when the lists so far are in order the cycle visit of a module succeeds and only marks it done |
| ManifestValidation.AcceptedExact | OrynSDK/Targets/UEFI/X64/OrynBuild/BuildKernelModuleManifestValidate.c:79-210 | validation accepts exactly the tables whose non-empty requirements name earlier modules, at most six each, with the required pairs; the cycle visit rejects nothing |
| ManifestValidation.AcceptedMeans | OrynSDK/Targets/UEFI/X64/OrynBuild/BuildKernelModuleManifestValidate.c:79-210 | spelled out: every non-empty requirement names an earlier module, no module has more than six, and the interrupt controllers list what they must |
| ManifestValidation.AcceptedAcyclic | OrynSDK/Targets/UEFI/X64/OrynBuild/BuildKernelModuleManifestValidate.c:79-168 | an accepted table has no requirement cycle |
| ManifestValidation.AcceptedIsTopological | OrynSDK/Targets/UEFI/X64/OrynBuild/BuildKernelModuleManifestValidate.c:79-132 | in the kernel table built from an accepted one no module requires a later one |
| ManifestValidation.EveryLifeClosed | OrynSDK/Common/Kernel/Source/Manifest/KernelModuleManifestRules.c:63-299 | from validated manifests, through any orderly start-up, to any step of any sweep, every ready module has all its required modules ready |
| ManifestValidation.Validator.ValidateRequirementList | OrynSDK/Targets/UEFI/X64/OrynBuild/BuildKernelModuleManifestValidate.c:79-132 | accepts exactly the lists that are in order |
| ManifestValidation.Validator.CycleVisit | OrynSDK/Targets/UEFI/X64/OrynBuild/BuildKernelModuleManifestValidate.c:134-168 | the recursive visit over the states array does what the specified visit does |
| ManifestValidation.Validator.ValidateModules | OrynSDK/Targets/UEFI/X64/OrynBuild/BuildKernelModuleManifestValidate.c:170-210 | returns 1 exactly for accepted tables |
| ModuleLifecycle.MadeReadyExact | OrynSDK/Common/Kernel/Source/Manifest/KernelModuleManifestRules.c:123-130 | making a module ready keeps all ready modules backed exactly when all it requires are ready |
| ModuleLifecycle.TakenDownExact | OrynSDK/Common/Kernel/Source/Manifest/KernelModuleManifestRules.c:132-148 | taking a ready module down keeps them backed exactly when no other ready module requires it |
| ModuleLifecycle.EveryStartClosed | OrynSDK/Common/Kernel/Source/Manifest/KernelModuleManifestRules.c:63-148 | through any start-up that begins each module once and marks it ready only after a successful beginning, every ready module has all it requires ready |
| ModuleLifecycle.SweepClosed | OrynSDK/Common/Kernel/Source/Manifest/KernelModuleManifestRules.c:206-299 | the same holds at every step of a descending sweep, while a callback runs and after it, whatever the callbacks answer |
| ModuleLifecycle.SweepNeedsOrder | OrynSDK/Common/Kernel/Source/Manifest/KernelModuleManifestRules.c:262-299 | the order is needed: with every module ready, all sweep steps are safe if and only if no module requires a later one |
| ModuleLifecycle.BeginExact | OrynSDK/Common/Kernel/Source/Manifest/KernelModuleManifestRules.c:91-111 | a beginning succeeds exactly for a compiled-in module with all it requires ready, which is then starting; one that cannot start has failed; no other module is touched |
| ModuleLifecycle.SelectExact | OrynSDK/Common/Kernel/Source/Manifest/KernelModuleManifestRules.c:82-89 | selecting moves a registered module on, and nothing else |
| ModuleLifecycle.SweepExact | OrynSDK/Common/Kernel/Source/Manifest/KernelModuleManifestRules.c:206-299 | after a sweep each module it called is as its answer says, every other as it was |
| ModuleLifecycle.SweepCounts | OrynSDK/Common/Kernel/Source/Manifest/KernelModuleManifestRules.c:262-299 | the count is the number of modules called that answered yes |
| ModuleLifecycle.Manifest.CanStartModule | OrynSDK/Common/Kernel/Source/Manifest/KernelModuleManifestRules.c:63-80 | true exactly when the module is compiled in and all it requires are ready |
| ModuleLifecycle.Manifest.BeginModule | OrynSDK/Common/Kernel/Source/Manifest/KernelModuleManifestRules.c:91-111 | has the specified effect and result |
| ModuleLifecycle.Manifest.MarkModule | OrynSDK/Common/Kernel/Source/Manifest/KernelModuleManifestRules.c:123-148 | sets the state of that module alone |
| ModuleLifecycle.Manifest.InvokeCallback | OrynSDK/Common/Kernel/Source/Manifest/KernelModuleManifestRules.c:157-260 | has the specified effect and result, for stop, panic and shutdown |
| ModuleLifecycle.Manifest.InvokeCallbacks | OrynSDK/Common/Kernel/Source/Manifest/KernelModuleManifestRules.c:262-299 | the descending loop has the specified effect and count |
| ModuleLifecycle.Manifest.constructor | OrynSDK/Common/Kernel/Source/Manifest/KernelModuleManifestData.c:26-71 | compiled-in modules start registered, the others absent |
| TimerWheel.SleepUntilExact | OrynSDK/Common/Kernel/Source/Process/KernelScheduler.c:140-161 | a sleep is taken exactly when its deadline lies ahead and one of the 128 timers is unused; then the thread sleeps with a queued timer that will wake it |
| TimerWheel.QueueTimerExact | OrynSDK/Common/Kernel/Source/Process/KernelScheduler.c:163-182 | the same for callback timers |
| TimerWheel.SleepersGrow | OrynSDK/Common/Kernel/Source/Process/KernelScheduler.c:140-161 | a sleep adds its thread to the sleepers and wakes nobody |
| TimerWheel.ExpireKeeps | OrynSDK/Common/Kernel/Source/Process/KernelScheduler.c:68-99 | an expiry lowers only counters that are positive, and keeps every other sleeper's timer |
| TimerWheel.TickExact | OrynSDK/Common/Kernel/Source/Process/KernelScheduler.c:311-351 | a tick expires exactly the due timers of the one list it falls on, wakes their threads, and leaves every other timer as it was |
| TimerWheel.TickIs | OrynSDK/Common/Kernel/Source/Process/KernelScheduler.c:311-351 | with the due timers spelled out: queued, deadline reached and equal to now modulo 64; exactly those expire, and exactly the threads that slept on one of them wake |
| TimerWheel.TickTimelyExact | OrynSDK/Common/Kernel/Source/Process/KernelScheduler.c:311-351 | after a tick nothing queued is overdue if and only if everything overdue hung on the list the tick fell on; so a gap in ticks can make a timer late |
| TimerWheel.UnitTick | OrynSDK/Common/Kernel/Source/Process/KernelScheduler.c:311-351 | when time moves by at most one, a tick expires exactly the timers whose deadline it is |
| TimerWheel.EveryTimerRun | OrynSDK/Common/Kernel/Source/Process/KernelScheduler.c:41-182 | in every run: timers expire at most once, never early, the log holds exactly the expired ones, queued + expired = used <= 128, sleepers are counted and never forgotten; with unit ticks each expires on the tick of its deadline |
| TimerLinks.ChainDropLater | OrynSDK/Common/Kernel/Source/Process/KernelScheduler.c:330-350 | unlinking a node in mid-list keeps the list without it |
| TimerLinks.Scheduler.PlaceNode | OrynSDK/Common/Kernel/Source/Process/KernelScheduler.c:41-66 | takes the first free node and puts it at the front of its deadline's list |
| TimerLinks.Scheduler.SleepUntilTick | OrynSDK/Common/Kernel/Source/Process/KernelScheduler.c:140-161 | has the specified effect and result |
| TimerLinks.Scheduler.QueueCallback | OrynSDK/Common/Kernel/Source/Process/KernelScheduler.c:163-182 | has the specified effect and result |
| TimerLinks.Scheduler.ExpireNode | OrynSDK/Common/Kernel/Source/Process/KernelScheduler.c:82-99 | has the specified effect, on a node in no list |
| TimerLinks.Scheduler.Unlink | OrynSDK/Common/Kernel/Source/Process/KernelScheduler.c:335-342 | exactly one node leaves exactly one list, by the head or by the node before it |
| TimerLinks.Scheduler.WalkSlot | OrynSDK/Common/Kernel/Source/Process/KernelScheduler.c:328-350 | the walk with its trailing pointer keeps the nodes that are not due and expires the others, in order |
| TimerLinks.Scheduler.RunTick | OrynSDK/Common/Kernel/Source/Process/KernelScheduler.c:311-351 | has the specified effect |
| WaitQueue.WaitExact | OrynSDK/Common/Kernel/Source/Process/KernelScheduler.c:234-258 | a thread can wait exactly when the channel is real and a slot is open; the count is the number of slots in use |
| WaitQueue.WaitIs | OrynSDK/Common/Kernel/Source/Process/KernelScheduler.c:234-258 | it takes the first open slot and blocks; no other slot and no other thread changes |
| WaitQueue.ReleaseKeeps | OrynSDK/Common/Kernel/Source/Process/KernelScheduler.c:260-289 | a release lowers a count that is positive and unblocks the thread of that slot |
| WaitQueue.WakeOneExact | OrynSDK/Common/Kernel/Source/Process/KernelScheduler.c:260-309 | waking one releases the first waiter of the channel and nobody else |
| WaitQueue.WakeOneIs | OrynSDK/Common/Kernel/Source/Process/KernelScheduler.c:260-309 | waking one empties the first slot of the channel, or the first in use for channel 0, and unblocks its thread alone |
| WaitQueue.WakeAllExact | OrynSDK/Common/Kernel/Source/Process/KernelScheduler.c:260-309 | waking all clears exactly the slots of the channel, unblocks their threads and counts them |
| WaitQueue.WakeAllBlocked | OrynSDK/Common/Kernel/Source/Process/KernelScheduler.c:260-309 | waking all unblocks exactly the threads that wait on the channel |
| WaitQueue.Queue.WaitOn | OrynSDK/Common/Kernel/Source/Process/KernelScheduler.c:234-258 | has the specified effect and result |
| WaitQueue.Queue.WakeMatchingWaiter | OrynSDK/Common/Kernel/Source/Process/KernelScheduler.c:260-289 | the scan has the specified effect and count, for one and for all |
| RunQueue.WinnerAndLosers | OrynSDK/Common/Kernel/Source/Process/KernelSchedulerRoundRobin.c:111-130 | the picking loop loses and invents no thread: winner and re-queued ones are exactly the threads there were |
| RunQueue.WinnerIsEarliestBest | OrynSDK/Common/Kernel/Source/Process/KernelSchedulerRoundRobin.c:111-130 | the winner is the earliest thread of the highest priority |
| RunQueue.AddExact | OrynSDK/Common/Kernel/Source/Process/KernelSchedulerRoundRobin.c:53-91 | a thread is added exactly when the queue it belongs in has fewer than 64: the one asked for, 0 past CPU 31, if it may run there, else the first configured CPU it may run on; it goes to the end, becomes ready and at home there, and no other queue changes |
| RunQueue.PickIdle | OrynSDK/Common/Kernel/Source/Process/KernelSchedulerRoundRobin.c:102-110 | a CPU with nothing queued gets its idle thread and nothing changes |
| RunQueue.PickSettled | OrynSDK/Common/Kernel/Source/Process/KernelSchedulerRoundRobin.c:102-140 | where every thread may run, a pick changes one queue alone: all but the winner stay in it, and the winner is current and no longer ready |
| RunQueue.PickNextExact | OrynSDK/Common/Kernel/Source/Process/KernelSchedulerRoundRobin.c:102-140 | for every CPU number, configured or not: a pick returns the earliest thread of the highest priority, makes it current on the CPU the ring is numbered for, and the others queue up there in the order they went back, less those that may not run there, as long as there is room |
| RunQueue.PickNextKeepsExact | OrynSDK/Common/Kernel/Source/Process/KernelSchedulerRoundRobin.c:102-140 | exactly the others stay queued, behind what waited there, if and only if each of them may run there and there is room for all; a configured CPU always has room |
| RunQueue.PickUnnumberedExact | OrynSDK/Common/Kernel/Source/Process/KernelSchedulerRoundRobin.c:102-140 | a pick on a ring beyond the configured CPUs empties it: the winner becomes current on CPU 0 and the others are added to CPU 0 one after another |
| RunQueue.NumberedKeeps | OrynSDK/Common/Kernel/Source/Process/KernelSchedulerRoundRobin.c:53-188 | no thread is ever current on a CPU beyond the configured ones, so pre-empting such a CPU is only a pick |
| RunQueue.PreemptRotates | OrynSDK/Common/Kernel/Source/Process/KernelSchedulerRoundRobin.c:163-188 | with equal priorities and room in the ring, pre-emption is a rotation of the queue with the current thread behind it |
| RunQueue.PreemptExact | OrynSDK/Common/Kernel/Source/Process/KernelSchedulerRoundRobin.c:163-188 | with any priorities and room in the ring: the earliest of the highest priority among those queued and then the one that ran runs next; the others stay queued and ready, and no other queue changes |
| RunQueue.PreemptNobody | OrynSDK/Common/Kernel/Source/Process/KernelSchedulerRoundRobin.c:172-181 | with no thread running there is none to put back, and pre-emption is a pick |
| RunQueue.PreemptFullLoses | OrynSDK/Common/Kernel/Source/Process/KernelSchedulerRoundRobin.c:163-188 | with the ring full the pre-empted thread is gone |
| RunQueue.EachRunsOnce | OrynSDK/Common/Kernel/Source/Process/KernelSchedulerRoundRobin.c:163-188 | so each of n equal threads runs exactly once in every n pre-emptions, in queue order |
| RoundRobin.Scheduler.constructor | OrynSDK/Common/Kernel/Source/Process/KernelSchedulerRoundRobin.c:17-41 | empty rings for the clamped number of CPUs |
| RoundRobin.Scheduler.Push | OrynSDK/Common/Kernel/Source/Process/KernelSchedulerRoundRobin.c:82-84 | the ring gains the thread at its tail; tail = (head + count) mod 64 is kept |
| RoundRobin.Scheduler.PopHead | OrynSDK/Common/Kernel/Source/Process/KernelSchedulerRoundRobin.c:93-100 | the ring loses its head thread |
| RoundRobin.Scheduler.AddRunnableThread | OrynSDK/Common/Kernel/Source/Process/KernelSchedulerRoundRobin.c:53-91 | has the specified effect and result, affinity included |
| RoundRobin.Scheduler.PickNextThread | OrynSDK/Common/Kernel/Source/Process/KernelSchedulerRoundRobin.c:102-140 | the loop has the specified effect and result |
| RoundRobin.Scheduler.PreemptCurrent | OrynSDK/Common/Kernel/Source/Process/KernelSchedulerRoundRobin.c:163-188 | has the specified effect and result |
| RoundRobin.Scheduler.RegisterIdleThread | OrynSDK/Common/Kernel/Source/Process/KernelSchedulerRoundRobin.c:142-161 | has the specified effect |
| HandoffCrc.UpdateConcat | OrynSDK/Common/Handoff/Include/OrynBootInfo.h:291-314 | updating over two blocks in turn is updating over both at once |
| HandoffCrc.ByteStepBijective | OrynSDK/Common/Handoff/Include/OrynBootInfo.h:303-311 | for each byte the step permutes the 32-bit states, with an explicit inverse |
| HandoffCrc.UpdateIsTableUpdate | OrynSDK/Common/Handoff/Include/OrynBootInfo.h:291-314 | the bit-by-bit loop computes what the table-driven sample code of section 8 of RFC 1952 computes |
| HandoffCrc.KnownState | OrynSDK/Common/Handoff/Include/OrynBootInfo.h:291-314 | the digits 1 to 9 leave the state of the usual check value |
| HandoffCrc.BurstChangesState | OrynSDK/Common/Handoff/Include/OrynBootInfo.h:291-314 | any change confined to four bytes in a row changes the state after all the bytes |
| HandoffChecksum.StoreChangesNothingCovered | OrynSDK/Common/Handoff/Include/OrynBootInfo.h:335-364 | the checksum does not depend on its own field |
| HandoffChecksum.SealVerifies | OrynSDK/Common/Handoff/Include/OrynBootInfo.h:409-429 | a sealed handoff verifies exactly when its checksum can be computed |
| HandoffChecksum.CheckValue | OrynSDK/Common/Handoff/Include/OrynBootInfo.h:335-407 | the CRC of the digits 1 to 9 is 0xCBF43926, the check value of CRC-32; a CRC of 0 is reported as all ones |
| HandoffChecksum.ComputedWhen | OrynSDK/Common/Handoff/Include/OrynBootInfo.h:335-407 | a checksum is computed exactly for signature, version 7, size and flags in bounds, and a map and font, where the flags tell of them, with an address and within 1 MiB and 8 MiB |
| HandoffChecksum.CoveredBytes | OrynSDK/Common/Handoff/Include/OrynBootInfo.h:335-407 | covered by the checksum are all information bytes but 52 to 55, then the map, then the font |
| HandoffChecksum.SealWrites | OrynSDK/Common/Handoff/Include/OrynBootInfo.h:409-416 | sealing writes bytes 52 to 55, low byte first, and nothing else |
| HandoffChecksum.NumberIs | OrynSDK/Common/Handoff/Include/OrynBootInfo.h:335-364 | the fields are read low byte first, four or eight bytes |
| HandoffChecksum.ChangeDetectedExactly | OrynSDK/Common/Handoff/Include/OrynBootInfo.h:405-429 | a change within four covered bytes in a row is refused, unless the two CRCs are the pair 0 and 0xFFFFFFFF that line 406 merges, and then it is accepted |
| HandoffChecksum.InfoByteDetected | OrynSDK/Common/Handoff/Include/OrynBootInfo.h:335-429 | in particular for any one byte of the boot information whose change leaves the covered ranges as they were: the change is accepted only if the handoff stays computable and the two CRCs are that pair; so a wrong signature, version or size is always refused |
| HandoffChecksum.OtherByteSameRanges | OrynSDK/Common/Handoff/Include/OrynBootInfo.h:335-400 | every byte outside flags, map and font fields leaves the covered ranges as they were |
| HandoffChecksum.BlockByteDetected | OrynSDK/Common/Handoff/Include/OrynBootInfo.h:366-429 | and for any one covered byte of the memory map or the font |
| HandoffChecksum.ChecksumUpdate | OrynSDK/Common/Handoff/Include/OrynBootInfo.h:291-314 | the nested loops with the masked polynomial compute the specified update |
| HandoffChecksum.BootInfo.AppendBlock | OrynSDK/Common/Handoff/Include/OrynBootInfo.h:316-333 | joins a block exactly when it has an address and an allowed length |
| HandoffChecksum.BootInfo.ComputeChecksum | OrynSDK/Common/Handoff/Include/OrynBootInfo.h:335-407 | the separate updates and early returns compute the checksum of all covered bytes at once, or 0 |
| HandoffChecksum.BootInfo.SealChecksum | OrynSDK/Common/Handoff/Include/OrynBootInfo.h:409-416 | has the specified effect, and verifies afterwards exactly when computable |
| HandoffChecksum.BootInfo.VerifyChecksum | OrynSDK/Common/Handoff/Include/OrynBootInfo.h:418-429 | has the specified result |
| NumberText.DigitStep | OrynSDK/Common/OrynLibC/Source/stdlib/strtoull.c:54-67 | the overflow test of the digit loop is true exactly when the true value with the new digit exceeds 64 bits |
| NumberText.DigitsAre | OrynSDK/Common/OrynLibC/Source/stdlib/strtoull.c:6-12 | the digits are 0 to 9, then a to z or A to Z |
| NumberText.FirstDigitCounts | OrynSDK/Common/OrynLibC/Source/stdlib/strtoull.c:54-68 | each place of a numeral counts the base times the one behind it |
| NumberText.DigitsRead | OrynSDK/Common/OrynLibC/Source/stdlib/strtoull.c:45-70 | in every base, the longest row of digits is read up to what does not belong to it: its value, or the largest with a range error; without a digit nothing is read |
| NumberText.SignedText | OrynSDK/Common/OrynLibC/Source/stdlib/strtoull.c:14-24 | spaces and a sign in front only move the end of the number; a minus sign negates it modulo 2^64 |
| NumberText.BaseZero | OrynSDK/Common/OrynLibC/Source/stdlib/strtoull.c:26-43 | base 0 is 16 behind 0x, 8 behind another 0, and else 10 |
| NumberText.PrefixSkipped | OrynSDK/Common/OrynLibC/Source/stdlib/strtoull.c:26-43 | in base 16 a 0x in front counts as nothing; without a digit behind it there is no number |
| NumberText.BadBase | OrynSDK/Common/OrynLibC/Source/stdlib/strtoull.c:45-53 | no base but 0 and 2 to 36 is taken: 0, nothing read, and EINVAL |
| NumberText.NumeralExact | OrynSDK/Common/OrynLibC/Source/stdio/vsnprintf.c:35-66 | the printed numeral has only digits, no leading zero, and stands for the number |
| NumberText.DigitCharsAre | OrynSDK/Common/OrynLibC/Source/stdio/vsnprintf.c:37-41 | the sixteen digit characters, lower and upper case |
| NumberText.BufferLongEnough | OrynSDK/Common/OrynLibC/Source/stdio/vsnprintf.c:39-59 | the 32-place digit buffer never cuts a 64-bit number in any base from 4 to 16, so not in 10 or 16 |
| NumberText.UnsignedExact | OrynSDK/Common/OrynLibC/Source/stdlib/strtoull.c:45-70 | on the numeral of any number strtoull returns it, or the largest value with a range error exactly when it does not fit, and ends at the text's end |
| NumberText.UnsignedRoundTrip | OrynSDK/Common/OrynLibC/Source/stdlib/strtoull.c:45-70 | strtoull inverts the decimal and hexadecimal numerals, decimal also with base 0 |
| NumberText.NegatedUnsigned | OrynSDK/Common/OrynLibC/Source/stdlib/strtoull.c:69-69 | a minus sign negates modulo 2^64; in front of a number too large the result is 1 |
| NumberText.PointerRoundTrip | OrynSDK/Common/OrynLibC/Source/stdlib/strtoull.c:26-43 | strtoull inverts the numeral with 0x in front, in base 16 and base 0 |
| NumberText.SignedExact | OrynSDK/Common/OrynLibC/Source/stdlib/strtoll.c:24-57 | on the text of any integer strtoll returns it, the least value included, or the nearest limit with a range error, and ends at the text's end |
| NumberText.SignedReads | OrynSDK/Common/OrynLibC/Source/stdlib/strtoll.c:24-57 | for every text strtoll is what strtoull reads with the sign applied, clipped to a signed 64-bit number with a range error |
| FormatText.PrintThenParse | OrynSDK/Common/OrynLibC/Source/stdio/vsnprintf.c:85-209 | for every 64-bit argument: strtoll inverts %lld, strtoull inverts %llu, %llx and %p, each ending at the terminator |
| FormatText.PlainTextPrints | OrynSDK/Common/OrynLibC/Source/stdio/vsnprintf.c:99-109 | a format without a percent sign prints itself |
| FormatText.PercentPrints | OrynSDK/Common/OrynLibC/Source/stdio/vsnprintf.c:110-117 | two percent signs print one, and one at the end prints itself |
| FormatText.ConversionPrints | OrynSDK/Common/OrynLibC/Source/stdio/vsnprintf.c:119-188 | a conversion behind any number of l prints its argument: the low byte, the string or (null), the signed, decimal or hexadecimal numeral of its low 32 bits, 64 behind an l, or 0x and the pointer; and takes one argument |
| FormatText.OneNumber | OrynSDK/Common/OrynLibC/Source/stdio/vsnprintf.c:133-176 | the low 32 or 64 bits of an argument are those of one number of either sign range, so what a conversion prints is determined |
| FormatText.UnknownPrints | OrynSDK/Common/OrynLibC/Source/stdio/vsnprintf.c:181-193 | anything else prints the percent sign and the character, drops the l, and takes no argument |
| FormatText.ReturnedLength | OrynSDK/Common/OrynLibC/Source/stdio/vsnprintf.c:208-208 | the length comes back as itself below 2^31, and otherwise as its low 32 bits, signed |
| FormatText.BufferPut | OrynSDK/Common/OrynLibC/Source/stdio/vsnprintf.c:6-19 | one more character of output is held, if it fits |
| FormatText.BufferPutString | OrynSDK/Common/OrynLibC/Source/stdio/vsnprintf.c:21-33 | a string, or (null), joins the output |
| FormatText.FillDigits | OrynSDK/Common/OrynLibC/Source/stdio/vsnprintf.c:54-59 | all the digits go into the buffer, last first |
| FormatText.BufferPutUnsigned | OrynSDK/Common/OrynLibC/Source/stdio/vsnprintf.c:35-66 | the numeral joins the output |
| FormatText.BufferPutSigned | OrynSDK/Common/OrynLibC/Source/stdio/vsnprintf.c:68-83 | the signed numeral joins the output, the least value included |
| FormatText.Vsnprintf | OrynSDK/Common/OrynLibC/Source/stdio/vsnprintf.c:85-209 | returns the length of the whole output as an int, and stores exactly the terminated part that fits, leaving the rest of the buffer |
| FormatText.ReadDigits | OrynSDK/Common/OrynLibC/Source/stdlib/strtoull.c:54-68 | the digit loop returns the end of the digits, the clipped value, and a range error exactly when the true value exceeds 64 bits |
| FormatText.ConvertUnsigned | OrynSDK/Common/OrynLibC/Source/stdlib/strtoull.c:45-70 | has the specified result for every text and base |
| FormatText.ConvertSigned | OrynSDK/Common/OrynLibC/Source/stdlib/strtoll.c:24-57 | has the specified result for every text and base |

## Left out

- Framebuffer pixels, TTF fonts, glyph tables and the scrollbar: the console is modelled in VGA mode, with presents never deferred.
- Memory pressure levels, peaks, address-range totals and other statistics nothing depends on; event counters are naturals and do not wrap.
- HeapContents.KmallocContents, HeapContents.KfreeContents, HeapContents.KreallocContents, HeapContents.KcallocContents: each step writes all headers and links of the state it makes, where the code writes only the changed ones; the class has no byte memory.
- HeapRaw.OversizedExact: what the split of the block that is too small then writes is not modelled; the other allocation results, from `HeapRaw.AllocateRawExact` to `HeapRun.EveryHeapRun`, are stated for requests up to 2^64-64, which `HeapRaw.AllocateRawRightExactly` shows is the exact bound.
- Heap memory outside block headers is assumed not to look like a header; a pointer whose header a coalesce swallowed counts as an invalid free here, where the code may still read the stale header and count a double free.
- Guard pages: only the page a guard takes from the allocator is modelled, not the records, the unmapping or their check in the heap's self-check.
- The raw and slab flags of a heap header are folded into its magic, which the code always sets together with them.
- The branch of the slab growth for an object size larger than a page, which none of the four caches has.
- Null arguments, which the code refuses in one line each, except where text or buffers may be null (vsnprintf).
- PhysicalAllocator.Allocator.AllocateContiguousPages: the widths of the fields are its preconditions, 32 bits for the page count and 64 for the pages.
- KernelHeap.KernelHeap.Validate: asks for a well-linked block list, since on a corrupted list the code may walk anywhere; leaves out the check of the guard records and the initialised flag.
- KernelHeap.KernelHeap.ValidateRawBlocks: asks for a well-linked block list for the same reason.
- KernelHeap.KernelHeap.AllocateCritical: leaves out the guard record and the unmapping of the guard page.
- The power-of-two test of the constraints is modelled by its meaning, not by its bit trick.
- Fat32Image.BuildExact: asks that everything fits the volume; the writer does not check this and would run over the end of the image.
- Fat32Writer.Writer.WriteFileData: asks for a chain, as AllocateChain makes; the ghost argument is its length, which the data may exceed.
- Fat32Writer.ComputeFatLayout: asks for a partition on which the loop ends; on any other the code loops for ever.
- The short-name conversion of project names, reading host files and writing the image file; names and contents are parameters.
- Splitting requirement text into tokens: manifests and build modules come with their lists parsed, and manifest identifiers are never empty, which the manifest reader enforces.
- Module callbacks answer yes or no and do not themselves change the table; screen reports and logs are left out.
- ModuleLifecycle.EveryStartClosed: start-up is taken to be orderly; the runtime marks a few core modules ready without beginning them, which MadeReadyExact covers one at a time.
- Timer callbacks do not re-enter the scheduler; timer ids, per-CPU tick records, jiffies and the device work queue are left out.
- Thread fields beyond priority, affinity, readiness and home CPU; registering an idle thread also sets its priority, which is fixed here.
- The empty-slot test in the picking loop: a slot between head and tail always holds a thread.
- The context switch itself, processes, system calls, virtual memory, PCI, APIC, SMP, FAT32 and VFS drivers of the kernel.
- HandoffChecksum.BlockByteDetected: the memory map and the font are taken not to overlap the boot information or each other.
- Format directives read each argument from its own 64-bit register, as the x64 calling convention passes them; arguments that are not there are excluded.
- The wrappers around vsnprintf, strtoull and strtoll (snprintf, printf, strtol, strtoul, atoi), which add a cast or a call.
