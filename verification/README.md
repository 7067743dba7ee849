# Zambesii: memory managers, page tables, messages and protocols

This project models parts of the Zambesii kernel in Dafny and proves what they keep over every run. It models
the code as it stands. Where a promise does not hold for every input, the input that breaks it and the exact
condition under which it does hold are both stated.

- `Tiling` is the specification shared by the two allocators: an arena cut into free and live tiles, without gap
  or overlap. `HeapChunk` and `Heap` are the kernel heap (first fit, split, coalesce, optional guard page);
  `MemoryBog` is the second, independent allocator. `GuardedHeap` puts the guard-paged heap on an address space.
- `PageTables` is the two-level table of 32-bit paging (section 4.3 of the Intel SDM, volume 3A). Every range
  walker is proved against one flat map from page number to entry.
- `Layout`, `Delivery`, `Elements` and `Marshal` are UDI control blocks on their way through a channel: sized by a
  layout, marshalled into a message, cloned by the receiver (section 28.3, Marshalling, of the UDI Core Specification).
  Memory is an array of bytes and pointers are little-endian words in it.
- `WaiterQueue` and `RegionInit` are two protocols, as step relations with any number of producers or regions.
- `FrameBitmap`, `DebugBuffer`, `HardwareIdList`, `SlabCache` and `Pit` are the physical frame bitmap, the
  scrolling log, the sparse array with its embedded list, the slab cache and the timer conversion.

Objects the source updates in place are classes with the source's fields; arrays stay arrays; loops stay loops.
Allocation failure, the addresses that the page or frame supplier hands out and the outcome of thread spawning
are parameters. Panics and fatal assertions are results. Locks, TLB flushes and printing are not modelled, except
that the two protocols model their locks and message queues step by step.

Results that differ from what the code's comments say:

- `SingleWaiterQueue`: the comments in `addItem` and `block` say that no wakeup is lost. Two things break this.
  `TaskStream::block` marks the waiter blocked and only then takes it out of the run queue; a producer that wakes it in
  between has its entry taken out again, and the waiter, now marked runnable, is never woken by anybody
  (`WaiterQueue.UntimelyStrands`, `WaiterQueue.StrandedForever`). And `addItem` accepts NULL, which `pop` takes for an
  empty queue. No wakeup is lost exactly when nothing can be added, or blocking is one step and no NULL is ever added
  (`WaiterQueue.SafeIff`); run by run, none is lost when no NULL is added and no wakeup falls into that gap
  (`WaiterQueue.NoLostWakeup`).
- `unblock` looks at the waiter, marks it and inserts it in separate steps, so the waiter can stand in the run queue
  twice; it never does exactly when there is at most one producer (`WaiterQueue.QueuedOnceIffOneProducer`). `addItem`
  panics when the waiting thread has not been scheduled yet; it never does exactly when the thread is scheduled first
  (`WaiterQueue.PanicFreeIffStarted`).
- `DebugBuffer`: a write whose last scroll is by a whole number of pages, but not all of them, puts a character
  one past the end of a page (`DebugBuffer.Buffer.Write`, `DebugBuffer.OnePageIntoFullLog`).
- `MemoryBmp::releaseFrames` compares a byte address with frame numbers. A held run is given back exactly when
  it ends below the last frame of the bitmap, or its byte address is no larger than that frame's number
  (`FrameBitmap.GivesBack`); the frames of a whole new bitmap, once taken, are never given back unless its first
  frame's byte address is that small (`FrameBitmap.TakeAllGiveBack`). `fragmentedGetFrames` gives up on a free run that reaches the end of the bitmap.
- `HardwareIdList`: an enumeration ends at the first NULL item, so it is complete exactly when there is none
  (`HardwareIdList.EnumeratesAll`); one NULL item hides every entry behind it (`HardwareIdList.NullHidesRest`).
- `walkerPageRanger::unmap` agrees with `lookup` on its first page except for heap guard pages
  (`PageTables.UnmapReportAgrees`). `Heap::setGuardPage` says it clears only the present bit; it clears the user
  bit as well (`PageTables.GuardBits`).
- Device instantiation: a region asserts that its thread id is recorded, but the main thread records it only after
  spawning the thread, which may run at once. A region that gets ahead panics and the request is never acknowledged
  (`RegionInit.FirstRegionPanics`). No run panics exactly when new threads sleep until recorded, as the commented-out
  dormant flag would have them do, or none is spawned (`RegionInit.SafeIffDormant`). The same assertion in a region's
  last stage never fails (`RegionInit.SecondLookupHolds`).
- Device instantiation: when the second or a later region thread cannot be spawned, the context is deleted while
  a region still uses it; with all threads, or with none, it never is (`RegionInit.SafeIffSpawned`). A driver
  without regions is never acknowledged; any other run that cannot go on has acknowledged exactly once, if and only
  if no region got ahead (`RegionInit.EventuallyAcked`).
- `List::insert` is documented to insert at the front of the list; it inserts at the tail, and so do the models of the
  chunk and allocation lists.

## Model

| member | source | states |
|---|---|---|
| Tiling.ChainCovers | __kcore/__kclasses/heap.cpp:128-437 | every address of an arena lies in exactly one tile: free and live ranges neither overlap nor leave a gap |
| Tiling.ChainBytes | __kcore/__kclasses/heap.cpp:128-437 | free bytes and live bytes always add up to the arena |
| Tiling.BlocksSortedApart | __kcore/__kclasses/heap.cpp:840-966 | the free blocks of a coalesced tiling are strictly sorted and no two touch |
| Tiling.AllFreeIsOneBlock | __kcore/__kclasses/heap.cpp:305-372 | an arena with nothing live is one free block that spans it |
| Tiling.Release | __kcore/__kclasses/heap.cpp:238-372 | releasing a live tile fuses it with exactly its free neighbours and keeps the tiling coalesced |
| Tiling.ReleasedLives | __kcore/__kclasses/heap.cpp:238-372 | a release leaves every other live tile where it was |
| Tiling.TilingUnique | __kcore/__kclasses/heap.cpp:128-372 | the free list is determined by the live ranges alone, whatever requests led there |
| Tiling.ScanFit | __kcore/__kclasses/heap.cpp:147-174 | the scan stops at the first block with room, or at the end if there is none |
| Tiling.FreshFits | __kcore/__kclasses/heap.cpp:470-559 | when no chunk has room, the single block of a new chunk decides |
| HeapChunk.SortedInsert | __kcore/include/__kclasses/list.h:180-222 | the list stays sorted with the new item before the first item that is not below it |
| HeapChunk.RemoveAt | __kcore/include/__kclasses/list.h:224-259 | removes exactly the first item at the address, and nothing if there is none |
| HeapChunk.Gap | __kcore/__kclasses/heap.cpp:141-145 | the gap makes the extent whole pages; it is at least one byte and at most a page, a whole page for a size that is already whole pages |
| HeapChunk.Chunk.constructor | __kcore/__kclasses/heap.cpp:374-437 | a new chunk is one free block over its arena, page aligned in guard mode |
| HeapChunk.Chunk.Malloc | __kcore/__kclasses/heap.cpp:128-236 | NULL iff no block is large enough; otherwise exactly one live tile is added, at the low end of the first fitting block, live bytes grow by at least the need and at most a block header more, and by more than the need only when that block had no more than that to give |
| HeapChunk.TakenCarves | __kcore/__kclasses/heap.cpp:147-233 | either way of taking a block carves the first fitting block: need bytes, or all of it when at most a block header would be left |
| HeapChunk.NeedMeans | __kcore/__kclasses/heap.cpp:141-145 | an unguarded extent is its size; a guarded one is the next page multiple above it, never the size itself |
| Tiling.CarvedBounds | __kcore/__kclasses/heap.cpp:184-223 | the live bytes grow by need to need plus slack, and by more than need only when the first fitting block had at most need plus slack |
| Tiling.FirstChunkMeans | __kcore/__kclasses/heap.cpp:492-505 | no chunk before the serving one has a block large enough, and that one has |
| HeapChunk.CarveTaken | __kcore/__kclasses/heap.cpp:176-236 | whatever block is taken, whole or split, the tiling gains exactly the tile handed out and stays coalesced |
| HeapChunk.Chunk.AppendAndCoalesce | __kcore/__kclasses/heap.cpp:238-259 | the freed extent joins the block before it, and the next block if they now touch |
| HeapChunk.Chunk.PrependAndCoalesce | __kcore/__kclasses/heap.cpp:261-303 | the freed extent joins the block after it, and the previous block if they now touch |
| HeapChunk.Chunk.Free | __kcore/__kclasses/heap.cpp:305-372 | the chunk's tiling loses exactly the freed tile, whichever neighbours are free |
| HeapChunk.MallocThenFree | __kcore/__kclasses/heap.cpp:128-372 | freeing what was just allocated restores the block list |
| Heap.SizeFor | __kcore/__kclasses/heap.cpp:470-490 | the size is a word multiple with room for the request, the header and the guard page |
| Heap.Heap.constructor | __kcore/include/__kclasses/heap.h:21-29 | an empty heap over a supply of page-aligned chunks that lie apart |
| Heap.Heap.AddChunk | __kcore/__kclasses/heap.cpp:374-437 | the new chunk goes to the tail with one block; without supply nothing changes |
| Heap.Heap.TryChunks | __kcore/__kclasses/heap.cpp:492-512 | the first chunk with room serves the request, and no other chunk changes |
| Heap.Heap.Retry | __kcore/__kclasses/heap.cpp:493-559 | NULL iff there is no chunk to be had or its block is too small; a failure keeps up to two new chunks |
| Heap.Heap.Malloc | __kcore/__kclasses/heap.cpp:450-560 | NULL exactly when no chunk has room and a new one is not to be had or would be too small; otherwise one new live range, first fit, and the live bytes of all chunks together grow by at least the need and at most a block header more |
| Heap.Heap.ServedTakes | __kcore/__kclasses/heap.cpp:492-560 | what a served request adds to the live bytes of the whole heap, whether an old chunk or a new one served it |
| Heap.Heap.Free | __kcore/__kclasses/heap.cpp:625-747 | a listed pointer's range, list entry and guard page go and nothing else; any other pointer is a panic and changes nothing |
| Heap.Heap.LiveDisjoint | __kcore/__kclasses/heap.cpp:128-236 | the ranges of two live allocations never overlap, across all chunks |
| Heap.Heap.LiveApartFromBlocks | __kcore/__kclasses/heap.cpp:128-437 | a live range never meets a free block |
| Heap.Heap.GuardPageOwn | __kcore/__kclasses/heap.cpp:634-661 | in every valid state a live allocation's guard page is page aligned, the last page of its range, behind the header and every byte of the request its size was computed for, and protected; neither alignment panic can fire |
| Heap.Heap.GuardPageApart | __kcore/__kclasses/heap.cpp:517-535 | a guard page meets no other live allocation and no free block of any chunk |
| Heap.Heap.GuardPageOwner | __kcore/__kclasses/heap.cpp:517-535 | every protected page belongs to exactly one live allocation |
| Heap.Heap.GuardPageInRegion | __kcore/__kclasses/heap.cpp:374-437 | a guard page lies in one of the chunk regions the heap was given |
| Heap.CheckChunkBlocks | __kcore/__kclasses/heap.cpp:840-966 | the validator's loop accepts exactly the lists that are sorted, apart and inside the chunk |
| Heap.Heap.CheckBlocks | __kcore/__kclasses/heap.cpp:840-966 | checkBlocks succeeds in every valid state |
| Heap.Heap.FindChunk | __kcore/__kclasses/heap.cpp:819-838 | the first chunk whose range holds the header |
| Heap.Heap.CheckAllocations | __kcore/__kclasses/heap.cpp:968-1070 | every parent is right and the counters add up, so checkAllocations succeeds in every valid state |
| Heap.Heap.EmptyChunkIsWhole | __kcore/__kclasses/heap.cpp:305-372 | a chunk with no allocations left is one block spanning its arena |
| Heap.Heap.ArenaConserved | __kcore/__kclasses/heap.cpp:128-437 | no byte of a chunk is lost or counted twice |
| Heap.Run | __kcore/__kclasses/heap.cpp:450-1070 | after every request of any sequence both validators pass |
| MemoryBog.RoundUp | __kcore/__kclasses/memoryBog.cpp:14-15 | a word multiple, one to four bytes above the request |
| MemoryBog.BogBlock.constructor | __kcore/__kclasses/memoryBog.cpp:426-452 | one free object of blockSize bytes behind the block header |
| MemoryBog.BogBlock.Allocate | __kcore/__kclasses/memoryBog.cpp:119-172 | first fit, at the tail of the object; refused iff no object is large enough; the live bytes grow by at least the need and at most a free-object header more |
| MemoryBog.TakenCarves | __kcore/__kclasses/memoryBog.cpp:119-172 | the tail of the first fitting object: need bytes, or all of it when at most a free-object header would be left |
| MemoryBog.Freed | __kcore/__kclasses/memoryBog.cpp:273-357 | the list walk merges forward, then backward, as the tiling's release does |
| MemoryBog.BogBlock.Free | __kcore/__kclasses/memoryBog.cpp:227-359 | the block's tiling loses exactly the freed tile |
| MemoryBog.MemoryBog.Allocate | __kcore/__kclasses/memoryBog.cpp:89-225 | NULL exactly when no block has room and a new one is not to be had or would be too small; otherwise one new header, carved first fit from the first block with room or from a new block at the head, and every other block is as it was |
| MemoryBog.MemoryBog.Free | __kcore/__kclasses/memoryBog.cpp:227-359 | memory with a valid header is released and its reference dropped; anything else is left alone |
| MemoryBog.MemoryBog.UnreferencedBlockIsWhole | __kcore/__kclasses/memoryBog.cpp:227-359 | reference count 0 means one free object of blockSize bytes |
| MemoryBog.MemoryBog.BlockTiled | __kcore/__kclasses/memoryBog.cpp:89-359 | free objects are sorted, never touch, and with the live ranges fill the block; the count is the number of live ranges |
| MemoryBog.MemoryBog.LiveDisjoint | __kcore/__kclasses/memoryBog.cpp:89-225 | the ranges of two live headers never overlap, across all blocks |
| MemoryBog.MemoryBog.LiveApartFromObjects | __kcore/__kclasses/memoryBog.cpp:89-359 | a live range never meets a free object of any block |
| MemoryBog.AllocateThenFree | __kcore/__kclasses/memoryBog.cpp:89-359 | freeing what was just allocated restores the object list |
| PageTables.FlagsRoundTrip | __kcore/arch/i586/wPRanger_convertFlags.cpp:5-101 | every attribute has its own hardware bit (the user bit inverted) and no other bit is set; decoding gives back every attribute the hardware can hold |
| PageTables.LevelRanges | __kcore/arch/i586/wPRanger_getLevelRanges.cpp:15-24 | the indices name the first and the last page of the range |
| PageTables.AddressSpace.Lookup | __kcore/arch/i586/wPRanger_lookup.cpp:20-174 | lookup reads the flat map |
| PageTables.AddressSpace.SelectTable | __kcore/arch/i586/wPRanger_mapInc.cpp:68-104 | an existing table is kept; a new one is zeroed and leaves the flat map as it was; refused iff the pool is empty |
| PageTables.AddressSpace.MapRange | __kcore/arch/i586/wPRanger_mapInc.cpp:43-166 | exactly the first r pages change, each to its frame and flags; r falls short only at a slot without a table when no table is left, and iff the missing tables exceed the pool |
| PageTables.AddressSpace.MapInc | __kcore/arch/i586/wPRanger_mapInc.cpp:24-213 | page v + i maps to the i-th consecutive frame with the requested flags, for exactly the pages reported |
| PageTables.AddressSpace.MapNoInc | __kcore/arch/i586/wPRanger_mapNoInc.cpp:20-205 | every page reported maps to the one frame |
| PageTables.AddressSpace.Unmap | __kcore/arch/i586/wPRanger_unmap.cpp:10-220 | exactly the range is cleared, and the report is on its first page as it was |
| PageTables.UnmapReportAgrees | __kcore/arch/i586/wPRanger_unmap.cpp:50-200 | the report is what lookup would have said iff the page is not a heap guard page |
| PageTables.StatusCodes | __kcore/arch/i586/wPRanger_lookup.cpp:58-164 | what each of the eight status codes of a page that is not present means, to lookup and to the report of unmap |
| PageTables.AddressSpace.RemapInc | __kcore/arch/i586/wPRanger_remapInc.cpp:14-237 | frame bits replaced, flag bits changed only as the operation says, no page outside the range touched; after the set-present operation every page of the range looks up as backed by its new frame |
| PageTables.AddressSpace.RemapNoInc | __kcore/arch/i586/wPRanger_remapNoInc.cpp:12-233 | the same with one frame for all pages |
| PageTables.AttributeBits | __kcore/arch/i586/wPRanger_remapInc.cpp:152-168 | operations 1 and 2 set and clear exactly the attributes given and keep every other bit |
| PageTables.PresentBits | __kcore/arch/i586/wPRanger_remapInc.cpp:169-186 | operations 4 and 5 set and clear bit 0x001 and keep the other eleven |
| PageTables.WriteBits | __kcore/arch/i586/wPRanger_remapInc.cpp:187-204 | operations 6 and 7 set and clear bit 0x002 and keep the other eleven |
| PageTables.OtherBits | __kcore/arch/i586/wPRanger_remapInc.cpp:205-207 | any other operation keeps all twelve bits |
| PageTables.MadePresent | __kcore/arch/i586/wPRanger_remapInc.cpp:169-177 | an entry made present looks up as backed by its frame, whatever its other bits |
| PageTables.AddressSpace.MapThenUnmap | __kcore/arch/i586/wPRanger_unmap.cpp:10-220 | unmap after mapInc leaves exactly the range unmapped and reports the first page's frame, flags and status |
| PageTables.PresentLookup | __kcore/arch/i586/wPRanger_lookup.cpp:58-164 | a page mapped present looks up as backed, with its frame and attributes |
| PageTables.GuardBits | __kcore/__kclasses/heap.cpp:60-68 | what protecting a page clears: the present bit and the user bit |
| PageTables.AddressSpace.SetGuardPage | __kcore/__kclasses/heap.cpp:34-86 | a backed frame is given back, the page becomes a guard page, the panic cannot fire, no other page changes |
| PageTables.AddressSpace.UnsetGuardPage | __kcore/__kclasses/heap.cpp:88-126 | the page is made available again; the panic fires exactly when the page had its present bit set |
| PageTables.AddressSpace.GuardRoundTrip | __kcore/__kclasses/heap.cpp:34-126 | protecting and unprotecting a page fires neither panic and changes no other page |
| GuardedHeap.GuardedHeap.Malloc | __kcore/__kclasses/heap.cpp:450-560 | a served request protects exactly its guard page in the page tables, and the panic of setGuardPage does not fire |
| GuardedHeap.GuardedHeap.Free | __kcore/__kclasses/heap.cpp:625-747 | freeing unprotects exactly the allocation's guard page, and the panic of unsetGuardPage does not fire |
| GuardedHeap.GuardedHeap.LiveGuarded | __kcore/__kclasses/heap.cpp:34-86 | in every valid state lookup reports the last page of every live allocation as a heap guard page |
| GuardedHeap.GuardedHeap.BytesUnguarded | __kcore/__kclasses/heap.cpp:517-535 | no byte an allocation owns in front of its guard page lies in any guard page |
| GuardedHeap.Run | __kcore/__kclasses/heap.cpp:34-747 | over every sequence of requests neither guard page panic fires, and the heap's guard pages are heap guard pages in the page tables |
| Layout.Align | __kcore/include/__kstdlib/__kmath.h:27-41 | the least number not below the offset that is a multiple of the smaller of the size and a word; zero for an empty element |
| Layout.LeastMeans | __kcore/include/__kstdlib/__kmath.h:27-41 | no smaller multiple will do |
| Layout.ElementSize | __kcore/commonlibs/libzbzcore/layout.cpp:21-177 | a pointer element is always one word and never malformed; no element has a size that alignment cannot handle |
| Layout.KnownElements | __kcore/commonlibs/libzbzcore/layout.cpp:21-64 | every element code the UDI headers define has the size of its type and its own skip count |
| Layout.ArrayElements | __kcore/commonlibs/libzbzcore/layout.cpp:111-138 | an array takes up its count times the size of its detail layout and skips three bytes more than that layout has; malformed iff the detail has no size |
| Layout.UndefinedElements | __kcore/commonlibs/libzbzcore/layout.cpp:21-177 | which table entry every code the UDI headers do not define leads to, or none |
| Layout.NestedSize | __kcore/include/kernel/common/floodplainn/channel.h:470-501 | a nested layout is refused iff a pointer code occurs in its bytes up to the terminator, and otherwise sized like any other |
| Layout.GetElementSize | __kcore/commonlibs/libzbzcore/layout.cpp:66-177 | the loops and table reads compute the element's size and skip count |
| Layout.FindInline | __kcore/include/kernel/common/floodplainn/channel.h:424-454 | true iff some byte up to the terminator is an inline element |
| Layout.GetSize | __kcore/include/kernel/common/floodplainn/channel.h:470-501 | the size of the laid-out structure, or the error; `Layout.SizeOfPlaced` says what that is |
| Layout.SizeOfPlaced | __kcore/include/kernel/common/floodplainn/channel.h:470-501 | with each element at the least aligned offset behind the one before, the size is the end of the last one rounded up to a word |
| Layout.PlacedOfSize | __kcore/include/kernel/common/floodplainn/channel.h:470-501 | every layout that has a size describes such a structure |
| Layout.PlacedApart | __kcore/include/kernel/common/floodplainn/channel.h:470-501 | its elements lie one behind the other and inside it |
| Layout.SlotsAreFollowed | __kcore/commonlibs/libzbzcore/layout.cpp:246-315 | the pointers the walkers follow are exactly the elements with code 43, 44, 50 or 51, each at its aligned offset |
| Layout.SlotsFit | __kcore/include/kernel/common/floodplainn/channel.h:470-501 | a layout that has a size holds every pointer the walkers meet, aligned and each in a word of its own |
| Layout.NextElement | __kcore/commonlibs/libzbzcore/layout.cpp:255-268 | one loop step of every walker: same offsets, same elements, for all of them |
| Marshal.StorePointer | __kcore/commonlibs/libzbzcore/layout.cpp:385-404 | a stored pointer reads back and no other byte changes |
| Marshal.GetTotalMarshalSpaceInlineRequirements | __kcore/commonlibs/libzbzcore/layout.cpp:246-315 | the sum of the sizes of the non-NULL objects, or the first error |
| Marshal.PassObject | __kcore/commonlibs/libzbzcore/layout.cpp:373-405 | one object copied header and all, its new address stored, a NULL kept, nothing else written |
| Marshal.MarshalInlineObjects | __kcore/commonlibs/libzbzcore/layout.cpp:317-409 | writes exactly the measured bytes, object after object, and nothing else but the pointers |
| Delivery.Remeasured | __kcore/commonlibs/libzbzcore/libzudi.cpp:785-796 | re-measuring the marshalled block gives the sender's number |
| Delivery.ObjectsApart | __kcore/commonlibs/libzbzcore/layout.cpp:317-409 | delivered objects never overlap and lie in order between the ends of their space |
| Delivery.PointerWithin | __kcore/commonlibs/libzbzcore/layout.cpp:317-409 | every non-NULL pointer of a delivered block leads into its own objects |
| Marshal.Send | __kcore/kernel/common/floodplainn/channel.cpp:68-199 | refused, with nothing changed, iff a size is an error; otherwise the payload is a replica and nothing outside it changes |
| Marshal.CalleeCloneCb | __kcore/commonlibs/libzbzcore/libzudi.cpp:746-849 | the clone is the message without its arguments; refused iff a size is an error |
| Marshal.UpdateClonedCbInlinePointers | __kcore/commonlibs/libzbzcore/layout.cpp:500-571 | every pointer moves with its object from message to clone, NULL stays NULL, nothing else changes |
| Delivery.RoundTrip | __kcore/commonlibs/libzbzcore/devicePath.cpp:704-730 | a replica in a message, cloned and brought up to date, is a replica of the sender's block |
| Delivery.Arrives | __kcore/commonlibs/libzbzcore/devicePath.cpp:728-730 | writing the receiver's channel, context and origin leaves every pointer, every object and the other bytes of the clone as they arrived |
| Marshal.Call | __kcore/commonlibs/libzbzcore/devicePath.cpp:704-730 | send, clone, update and the receiver's three words end to end, element by element of the layout: a movable object arrives with the eight bytes of its header and all of its own, an inline object with all of its bytes, NULLs stay NULL, ordinary elements are equal byte by byte; channel, context and origin are the receiver's, and the sender's memory is untouched |
| Elements.ElementsArrive | __kcore/commonlibs/libzbzcore/devicePath.cpp:704-730 | the delivered block, in terms of the layout alone: which elements hold pointers, and the extent of the object behind each |
| Elements.MeasureRefuses | __kcore/commonlibs/libzbzcore/layout.cpp:246-315 | the sender refuses a block iff it has a nested layout without a size or a driver-typed one that is not there |
| Marshal.GetTotalCbInlineRequirements | __kcore/commonlibs/libzbzcore/layout.cpp:411-452 | the sum of the sizes of the inline objects, or the first error |
| Marshal.InitializeCbInlinePointers | __kcore/commonlibs/libzbzcore/layout.cpp:454-498 | the inline pointers cut exactly the reported space into consecutive pieces, one per object and of its size; otherwise the error of the space pass, with nothing but inline pointers written |
| Marshal.CbAllocSync | __kcore/commonlibs/libzbzcore/libzudi.cpp:617-715 | space pass, allocation and pointer pass: refused with the space pass's error or for want of memory, with nothing written; otherwise the block's inline space is exactly partitioned among its inline objects, each inline element's pointer being the sum of the sizes before it, and no other byte but the scratch pointer is written |
| Elements.AllocatedLaid | __kcore/commonlibs/libzbzcore/libzudi.cpp:617-715 | the new block in terms of the layout alone: where the pointer of each inline element leads, and that every other element is as it was |
| Elements.CbNeedRefuses | __kcore/commonlibs/libzbzcore/layout.cpp:411-452 | a new block is refused iff an inline element has a nested layout without a size or a driver-typed one that is not there, and with which error |
| WaiterQueue.Fifo | __kcore/__kclasses/singleWaiterQueue.cpp:8-111 | over every run, what was removed followed by the queue is what was enqueued, in order |
| WaiterQueue.DontBlockStays | __kcore/__kclasses/singleWaiterQueue.cpp:98-102 | a pop asked not to block is neither marked blocked nor parked at any point before it returns |
| WaiterQueue.DontBlockReturns | __kcore/__kclasses/singleWaiterQueue.cpp:85-102 | once it gets the lock it returns in two steps, with the head of the queue if that is an item and with nothing otherwise |
| WaiterQueue.BlockingStays | __kcore/__kclasses/singleWaiterQueue.cpp:85-110 | a pop that may block, however often it is woken, does not return without an item |
| WaiterQueue.NothingEnqueued | __kcore/__kclasses/singleWaiterQueue.cpp:34-52 | addItem stores nothing while no thread is set, nor without memory for the item |
| WaiterQueue.RefusedWakesNobody | __kcore/__kclasses/singleWaiterQueue.cpp:34-52 | an addItem that is refused leaves the waiter alone |
| WaiterQueue.NoLostWakeup | __kcore/__kclasses/singleWaiterQueue.cpp:8-111 | without NULL items and without a wakeup between the waiter's marking itself blocked and its leaving the run queue, no reachable state has a parked waiter outside the run queue, a non-empty queue and no producer that owes a wakeup; callers get every item once, in order |
| WaiterQueue.OwesStep | __kcore/__kclasses/singleWaiterQueue.cpp:42-60 | a producer owes its wakeup until the waiter is marked awake or stands in the run queue, whatever the others do |
| WaiterQueue.OwedWakeupArrives | __kcore/kernel/common/taskTrib/taskTrib.cpp:300-352 | a producer that owes a wakeup can put the waiter in the run queue by at most four steps of its own, without the lock; a parked waiter can then resume, one that has yet to leave the run queue takes that entry out again |
| WaiterQueue.NullLosesWakeup | __kcore/__kclasses/singleWaiterQueue.cpp:87-92 | two NULL items put the waiter to sleep for good on a non-empty queue |
| WaiterQueue.AtomicTimely | __kcore/kernel/common/taskTrib/taskStream.cpp:370-387 | if marking and leaving the run queue were one step, no wakeup could fall between them |
| WaiterQueue.UntimelyStrands | __kcore/kernel/common/taskTrib/taskStream.cpp:370-407 | one producer and no NULL: a wakeup between marking and leaving strands the waiter, marked runnable and in no run queue |
| WaiterQueue.StrandedForever | __kcore/kernel/common/taskTrib/taskTrib.cpp:312-322 | a stranded waiter stays stranded over every run, and its caller gets nothing more |
| WaiterQueue.UntimelyLosesWakeup | __kcore/__kclasses/singleWaiterQueue.cpp:8-111 | the next item is stored, its producer takes the waiter to be awake, and the item is never taken |
| WaiterQueue.SafeIff | __kcore/__kclasses/singleWaiterQueue.cpp:8-111 | no run loses a wakeup if and only if there are no producers, or no items, or blocking is one step and no item is NULL |
| WaiterQueue.PanicFreeIffStarted | __kcore/__kclasses/singleWaiterQueue.cpp:56-58 | no run panics in addItem if and only if the waiter is scheduled from the start, or nothing can be added |
| WaiterQueue.TwoWakersDouble | __kcore/kernel/common/taskTrib/taskStream.cpp:389-407 | two producers that both saw the waiter blocked both insert it into the run queue |
| WaiterQueue.QueuedOnceIffOneProducer | __kcore/kernel/common/taskTrib/taskStream.cpp:370-407 | no run has the waiter in the run queue twice if and only if there is at most one producer |
| RegionInit.StepInv | __kcore/commonlibs/libzbzcore/driverPath.cpp:559-700 | every step of every thread, up to and including a panic, keeps the counts, the context and the requests in order |
| RegionInit.AckedOnce | __kcore/commonlibs/libzbzcore/driverPath.cpp:615-700 | over every run, panicking or not, the request is acknowledged at most once, after every region has reported, with success iff no step of the run was a region's failure, and the context is never used after its deletion |
| RegionInit.FailedRun | __kcore/commonlibs/libzbzcore/devicePath.cpp:53-586 | over every run, some region has ended as failed iff some step of the run was a failing one |
| RegionInit.AnsweredFirst | __kcore/commonlibs/libzbzcore/driverPath.cpp:615-700 | no region moves on while a message it sent is unread; each region has at most one message in the queue, and a report there is what its region ended as |
| RegionInit.PanicsIffEarly | __kcore/commonlibs/libzbzcore/devicePath.cpp:94-96 | a run panics exactly when some region looks its thread id up before the main thread has recorded it |
| RegionInit.FirstRegionPanics | __kcore/commonlibs/libzbzcore/driverPath.cpp:804-835 | with threads that run at once, the first region can get ahead of the main thread in three steps and panic |
| RegionInit.SecondLookupHolds | __kcore/commonlibs/libzbzcore/devicePath.cpp:232-234 | the second assertion never fails in any run: only a main thread that has recorded every region answers the request before it |
| RegionInit.SafeIffDormant | __kcore/commonlibs/libzbzcore/driverPath.cpp:804-835 | no run panics if and only if new threads sleep until they are recorded, or there is none to spawn |
| RegionInit.EventuallyAcked | __kcore/commonlibs/libzbzcore/driverPath.cpp:615-700 | a run that cannot go on has acknowledged exactly once, or never if it panicked or there are no regions |
| RegionInit.DormantAcked | __kcore/commonlibs/libzbzcore/driverPath.cpp:804-835 | if new threads sleep until recorded, every run that cannot go on has acknowledged exactly once |
| RegionInit.RunBounded | __kcore/commonlibs/libzbzcore/devicePath.cpp:41-219 | every run is finite, so no interleaving puts the acknowledgement off for ever |
| RegionInit.FailedSpawnFaults | __kcore/commonlibs/libzbzcore/driverPath.cpp:804-825 | a failed second or later spawn lets a running region use the deleted context |
| RegionInit.SafeIffSpawned | __kcore/commonlibs/libzbzcore/driverPath.cpp:760-845 | no run uses the context after its deletion if and only if all threads can be spawned, or none |
| FrameBitmap.Bitmap.constructor | __kcore/__kclasses/memBmp.cpp:22-156 | only an unaligned first frame and a just-begun last frame start out used |
| FrameBitmap.Bitmap.Search | __kcore/__kclasses/memBmp.cpp:227-288 | the nested word loops find the first free frame from the last place on, and its run |
| FrameBitmap.Bitmap.FragmentedGetFrames | __kcore/__kclasses/memBmp.cpp:206-302 | between one and the requested number of contiguous free frames become used and no other bit changes; refused, with nothing changed, iff from the first free frame on there are too few to the end and all of them free |
| FrameBitmap.Bitmap.ReleaseFrames | __kcore/__kclasses/memBmp.cpp:304-335 | exactly the range is freed, or refused, or fatal, and which, by the code's own comparison of a byte address with frame numbers; a fatal release has freed the part of the range up to the end of the bitmap |
| FrameBitmap.Bitmap.MapMem | __kcore/__kclasses/memBmp.cpp:337-385 | changes exactly the part of the range that lies in the bitmap |
| FrameBitmap.GivesBack | __kcore/__kclasses/memBmp.cpp:304-321 | a held run is accepted for release iff it ends below the last frame or its byte address is tiny |
| FrameBitmap.TakeAllGiveBack | __kcore/__kclasses/memBmp.cpp:206-321 | all frames of a new bitmap, taken in one request, are refused when released, unless their byte address is no larger than the last frame's number |
| FrameBitmap.RunOps | __kcore/__kclasses/memBmp.cpp:206-335 | over every sequence of requests and releases no frame has two holders, and a frame is used iff it was at the start or is held |
| DebugBuffer.SuffixSuffix | __kcore/__kclasses/debugBuffer.cpp:113-143 | forgetting old characters early or late makes no difference |
| DebugBuffer.SuffixMeans | __kcore/__kclasses/debugBuffer.cpp:113-143 | what is kept is an end of what was written, and something is lost only when the log is full |
| DebugBuffer.Buffer.Scroll | __kcore/__kclasses/debugBuffer.cpp:146-191 | the in-place multi-page copy is a left shift of the whole log, and where the write position comes back |
| DebugBuffer.Buffer.Write | __kcore/__kclasses/debugBuffer.cpp:113-143 | the log is the last capacity-many characters of what it held and what was written, unless and only unless the last scroll is by whole pages |
| DebugBuffer.ScrollsIff | __kcore/__kclasses/debugBuffer.cpp:123-140 | the exact condition in one piece: the write runs past the capacity and ends, modulo the capacity, on a page boundary other than the first |
| DebugBuffer.OnePageIntoFullLog | __kcore/__kclasses/debugBuffer.cpp:123-140 | a one-page write into a full log of two or more pages is such a case |
| DebugBuffer.Buffer.Extract | __kcore/__kclasses/debugBuffer.cpp:81-106 | one handle's piece of the log and the next handle |
| DebugBuffer.Buffer.ReadAll | __kcore/__kclasses/debugBuffer.cpp:81-106 | the pieces put together are the whole log |
| DebugBuffer.WriteAll | __kcore/__kclasses/debugBuffer.cpp:113-143 | any number of writes: the log is the last characters of all of them, iff each stays on its pages |
| HardwareIdList.List.constructor | __kcore/__kclasses/hardwareIdList.cpp:10-33 | an empty list over zeroed memory |
| HardwareIdList.List.GetItem | __kcore/__kclasses/hardwareIdList.cpp:59-78 | map lookup, NULL for an id that is not there |
| HardwareIdList.List.FindFreeIndex | __kcore/__kclasses/hardwareIdList.cpp:80-101 | the lowest free slot, refused iff the array is full |
| HardwareIdList.List.GetNextItem | __kcore/__kclasses/hardwareIdList.cpp:103-136 | the next entry in ascending order, NULL at the end |
| HardwareIdList.List.Enumerate | __kcore/include/__kclasses/hardwareIdList.h:38-83 | every key once, ascending, up to the first NULL item |
| HardwareIdList.EnumeratesAll | __kcore/include/__kclasses/hardwareIdList.h:44-83 | the enumeration is complete iff no item is NULL |
| HardwareIdList.NullHidesRest | __kcore/include/__kclasses/hardwareIdList.h:44-83 | with a NULL item at a lower id, an entry that lookup finds is not enumerated |
| HardwareIdList.InsertLinks | __kcore/__kclasses/hardwareIdList.cpp:189-252 | linking a slot in keeps the chain sorted and complete and is a map update |
| HardwareIdList.RemoveLinks | __kcore/__kclasses/hardwareIdList.cpp:273-306 | linking a slot out keeps the chain sorted and complete and is a map removal |
| HardwareIdList.List.AddItem | __kcore/__kclasses/hardwareIdList.cpp:138-256 | map update for every id, growing the array; refused, with nothing changed, iff it must grow and cannot |
| HardwareIdList.List.RemoveItem | __kcore/__kclasses/hardwareIdList.cpp:258-309 | map removal; an absent id changes nothing |
| SlabCache.Slab.constructor | __kcore/__kclasses/slamCache.cpp:15-29 | an object holds at least its link, and a page whole objects |
| SlabCache.FitsIff | __kcore/__kclasses/slamCache.cpp:24-25 | a page holds an object iff the object is no larger than a page |
| SlabCache.Thread | __kcore/__kclasses/slamCache.cpp:190-200 | the loop threads exactly the page's objects into a list, in order |
| SlabCache.Slab.Allocate | __kcore/__kclasses/slamCache.cpp:152-207 | an object nobody holds, wholly inside one page, the first of the list or of the new page; NULL iff the list is empty and there is no page |
| SlabCache.Slab.Free | __kcore/__kclasses/slamCache.cpp:209-221 | the object goes to the front of the list; NULL does nothing |
| SlabCache.BalancedMeans | __kcore/__kclasses/slamCache.cpp:152-221 | listed and live objects are different ones and together exactly the objects of the pages obtained |
| SlabCache.ObjectsSpaced | __kcore/__kclasses/slamCache.cpp:152-207 | no two objects overlap |
| SlabCache.ObjectsCount | __kcore/__kclasses/slamCache.cpp:23-25 | every page contributes exactly its number of objects |
| Pit.NanosecondsToClks | __kcore/chipset/ibmPc/i8254.cpp:463-487 | the digit-wise conversion of the microseconds rounded up, cut to 16 bits; 0 when the rounding wraps 32 bits |
| Pit.ClksMonotone | __kcore/chipset/ibmPc/i8254.cpp:463-487 | strictly increasing in whole microseconds, for every count |
| Pit.ClksRates | __kcore/chipset/ibmPc/i8254.cpp:463-487 | the pulses of each of the five digits |
| Pit.AcceptedFits | __kcore/chipset/ibmPc/i8254.cpp:408-461 | an accepted interval fits 16 bits uncut and is within seven pulses of 1.19318 per microsecond |
| Pit.I8254Pit.SetPeriodicMode | __kcore/chipset/ibmPc/i8254.cpp:489-505 | busy, unsupported or programmed; a refusal changes nothing, a success only the periodic fields and the mode |
| Pit.I8254Pit.SetOneshotMode | __kcore/chipset/ibmPc/i8254.cpp:507-523 | the same for the one-shot fields |

## Left out

- GuardedHeap: the mapping of a new chunk's pages by the memory stream; each region is taken to have its page tables from the start, and what its other entries hold does not matter.
- Heap::realloc outside guard mode, the dump functions and the magic values.
- PAE branches of the page-table walkers, setAttributes, the shared and temporary mappings and kernel top-level propagation.
- Ranges that wrap past the top of the 32-bit address space; the walkers are called on ranges inside it.
- PageTables.AddressSpace.RemapInc, PageTables.AddressSpace.RemapNoInc: not defined on a directory slot without a table; the source would write through whatever the window shows.
- MemoryBmp::constrainedGetFrames and MemoryBmp::merge.
- FrameBitmap.Bitmap.FragmentedGetFrames: the reads past the last word after an exhausted search are not modelled; they cannot change the outcome.
- DebugBuffer.Buffer.Write: what the log holds after a character went past the end of its page is not stated; shutdown of the buffer is not modelled.
- HardwareIdList.List.GetItem: id -1 of an empty list passes the source's range test and reads the slot before the array; it is excluded. Negative ids are not added.
- HardwareIdList.List.RemoveItem: ids are not negative; in the source id -1 clears a flag in the slot before the array of an empty list, and on any other list matches the last entry's link and overwrites it.
- HardwareIdList.List.AddItem: the source leaves the new slots of a grown array as the allocator hands them out; here they are zero.
- SlabCache.Slab.constructor: objects larger than a page are excluded; the source's loop counter underflows there (`SlabCache.FitsIff` says when). The free list of whole pages, flush and detangle: nothing fills that list.
- Marshal.Send: the stack arguments are not marshalled; their space is reserved in the message and left as it was, so the errors of marshalStackArguments and of the message's allocation do not arise.
- Marshal.CalleeCloneCb: the copy of the driver-typed layout that travels in the message is a parameter instead.
- Marshal.MarshalInlineObjects, Marshal.UpdateClonedCbInlinePointers: the early return for a malformed element is absent, because the sender's measure has already refused such a layout.
- Marshal.InitializeCbInlinePointers: the layout is one that has a size, as the control block cache has checked, so it has no malformed element.
- Marshal.CbAllocSync: the cached sizes and the lookups of the control block index are parameters; the driver-typed layout is not copied behind the block.
- Layout.ElementSize: element codes above 201 index past the element table in the source; they are malformed here. 32-bit overflow of layout sizes is not modelled.
- RegionInit: devices that vanish during instantiation, and the allocation failure of the context copy. A region's work between messages is one step with a free outcome.
- Heap.Heap.Free: the build option that looks every freed pointer up in the allocation list is taken to be on; without it the source reads the header of an unlisted pointer.
- WaiterQueue: preemption by unblock, a failed allocation of a run queue entry, a waiter that is put to sleep by somebody else, the assertion of the debug scheduler that a blocking thread is running, and a change of the waiting thread while it waits.
- Heap.Heap.Malloc, MemoryBog.MemoryBog.Allocate: addresses are unbounded; a chunk or block near the top of the address space is not special.
- generateMetaCbCache, udi_buf and udi_dma services, hardware drivers, ACPI and MP tables, CPU enumeration and the x86 emulator.
