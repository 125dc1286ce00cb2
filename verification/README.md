# A verified model of the kernel's memory stack, ATA driver and small cores

This project models, in Dafny, the parts of the kernel whose correctness is hardest to see by reading:

- **Memory.** The frame bitmap (`Pmm`), the two-level page tables (`PageTables`, `Vmm`) and the heap (`Heap`)
  are classes stacked on each other. The bitmap is an array of 32-bit words; page tables are frames of a
  physical memory array that the bitmap hands out; block headers are words of that same memory, read and
  written at their virtual addresses through the page tables. `Boot` runs the initialisers in the order of
  `kernel_main`.
- **What the memory code promises.** The bitmap refines a set of used frames (`PmmLaws`), directory and tables
  refine a partial map from virtual pages to frames (`PageTables`, `VmmLaws`), and the headers refine a list of
  disjoint blocks (`Blocks`, `BlockLaws`, `HeapMemory`). `HeapRuns` puts the layers together over whole runs: a client may
  allocate, free, write to its blocks, map pages and take frames, in any order and also when frames run out, and no block of
  another owner is touched. `Boot.BootAndRun` is a run from the first initialiser on.
- **ATA PIO** (ATA/ATAPI-6, clauses 9.5 and 9.6). `AtaDevice` is the channel as a state machine: device phases,
  the latched interrupt and the driver's flag. `Ata` is the driver; between any two of its accesses the device
  and the interrupt handler may make any number of steps.
- **Keyboard line editor** (`Keyboard`): the interrupt handler may run between all steps of the consumer.
- **Timers** (`ClockLaws`, `ClockDriver`), **scrolling** with its overlapping copy (`Vbe`), the **memory-map walk**
  (`Multiboot`) and **number printing** and format expansion (`Text`).

The methods are the kernel's functions, with its loops and its stores; their contracts tie them to functions on
values, and the laws are proved about those functions. A word is a natural below 2^32 (`Words`), and bit operators
are written by their value. A `ghost` parameter or result only names something that memory already determines.

`dafny verify dfyconfig.toml` checks everything. Each file is one module of the same name.

## Results that differ from what one would expect

- `multiboot_get_total_memory` adds up the memory below and above the hole under the first megabyte. On a machine that
  follows the specification, `init_pmm` therefore frees frames past the end of its bitmap (`PmmLaws.ConformingMapLeavesBitmap`);
  `PmmLaws.InitStaysInsideIff` is the exact condition for staying inside.
- A usable region that reaches the end of the first gigabyte is not mapped to high memory at all, because the end
  of its image wraps around (`VmmLaws.RegionMissingIff`). `PageTables.RegionCoveredIff` is the exact condition under
  which `map_region` covers its range; an unaligned start can lose the last page.
- If the image of a usable region ends in the last page of the address space, `map_region` never ends
  (`PageTables.LoopEndsIff`, with `VmmLaws.UsableMemoryBelowOneGigabyte` as the input).
- Usable memory from one gigabyte on is mapped over the identity of the first four megabytes
  (`VmmLaws.UsableMemoryAtOneGigabyte`); `VmmLaws.LowMemoryIsIdentityIff` is the exact condition for keeping it.
- `expand_heap` asks for enough pages exactly when the sums of its request do not wrap around (`Blocks.PagesHoldBlockIff`).
- If the last sector of an ATA write or the flush behind it fails, the call still goes through: `Ata.Driver.WriteLba28`
  says for which failures it returns at ERR, and `Ata.ErrorsGoUnseen` gives the runs.
- `printk` prints a number twice if another one is passed as a string in the static buffer of `int2String`
  (`Text.NumberPrintedTwice`); `Text.ShownAsMeantIff` is the exact condition.
- A tick between the last two stores of `clock_create_timer` can run the callback that the slot held before once more and
  leave the new timer unarmed (`ClockLaws.SlowCreationArmsIff`, `ClockLaws.SlowCreationRunsOldCallbackIff`).
- A backspace after Enter still shortens the line that waits to be read, so a prefix is delivered: how long it is
  says `Keyboard.LineEditor.GetInputBuffer`, when it is the whole line `Keyboard.WholeLineIff`, and
  `Keyboard.ShortenedLine` is a run.

## Assumptions

- Interrupt handlers are atomic, and no compiler reordering or caching crosses a step.
- The bitmap and the page directory are arrays of their own; `init_pmm` reserves the frames they lie in.
- The kernel reaches a page table at its physical address at any time.
- `PANIC` is the end of a run; the methods return a flag for it and their contracts say when it happens.
- While `HeapRuns` runs, other code gives back only frames that it took since the heap was set up.
- The ATA device is free of errors unless stated; then only writes and flushes fail. An interrupt request, once
  raised, stays latched, and the addressed sectors exist on the drive. While the driver polls or halts, the device or
  the handler makes a step between two looks if there is one to make.

## Model

| member | source | states |
|---|---|---|
| Words.BitOfWithBit | kernel/mem/pmm.cpp:11 | Setting a bit changes what is read at that bit index and at no other. |
| Words.BitOfWithoutBit | kernel/mem/pmm.cpp:12 | Clearing a bit changes what is read at that bit index and at no other. |
| Words.BitIsDigit | kernel/mem/pmm.cpp:13 | Bit j of a word is its binary digit of weight 2^j. |
| Multiboot.TilingIsUnique | boot/multiboot_helpers.cpp:14-22 | Memory has at most one reading as a sequence of size-prefixed records that fills the map. |
| Multiboot.GetUsableRegions | boot/multiboot_helpers.cpp:47-63 | The cursor walk ends and the array holds exactly the type-1 records, each once and in order. |
| Multiboot.UsableRegionsAre | boot/multiboot_helpers.cpp:47-63 | The regions that init_pmm and init_vmm work on are the records of type 1 at increasing indices, address, length and type field by field, and no such record is left out. |
| Multiboot.StrideWalkAgrees | kernel/kernel.cpp:89-95 | The fixed-stride walk reads the same records as the cursor walk if and only if every record but the last has size 20 and the last at most 20. |
| Multiboot.StrideStopsAre | kernel/kernel.cpp:89-95 | The fixed-stride walk reads every 24 bytes, from the first record to the end of the map. |
| Pmm.UsedAfterUpdate | kernel/mem/pmm.cpp:11-13 | An update of one bit of one bitmap word adds or removes exactly one frame of the set that the words stand for. |
| Pmm.FrameBitmap.constructor | kernel/mem/pmm.cpp:27-46 | After init_pmm the used frames are those of the whole bitmap, less the usable regions, plus the four reserved ranges; frame 0 is used. |
| Pmm.FrameBitmap.FillBitmap | kernel/mem/pmm.cpp:33 | Filling the bitmap with ones marks exactly the frames of its words as used. |
| Pmm.FrameBitmap.FreeUsable | kernel/mem/pmm.cpp:35-41 | The loop over the regions frees the union of their frames and nothing else. |
| Pmm.FrameBitmap.ReserveAll | kernel/mem/pmm.cpp:42-45 | The four reservations mark the union of their frames and nothing else. |
| Pmm.FrameBitmap.SetBit | kernel/mem/pmm.cpp:11 | Exactly one frame joins the used ones. |
| Pmm.FrameBitmap.ClearBit | kernel/mem/pmm.cpp:12 | Exactly one frame leaves the used ones. |
| Pmm.FrameBitmap.FreeRegion | kernel/mem/pmm.cpp:71-77 | The frames of the range, rounded outward, become free and no other changes. |
| Pmm.FrameBitmap.ReserveRegion | kernel/mem/pmm.cpp:79-86 | The frames of the range, rounded outward, become used and no other changes. |
| Pmm.FrameBitmap.AllocPage | kernel/mem/pmm.cpp:48-61 | Returns the lowest free frame among the whole words of the bitmap and marks only that one; 0 if and only if every frame below max_frames - max_frames mod 32 is in use. |
| Pmm.FrameBitmap.FreePage | kernel/mem/pmm.cpp:63-69 | Frees the frame of an address that is a multiple of 4096, not 0 and below 4096 * max_frames, and ignores every other address. |
| Pmm.LowestFree | kernel/mem/pmm.cpp:48-61 | The result is not used and everything below it is; given that frame 0 is used, it is 0 if and only if every scanned frame is used. |
| Pmm.ScannedAreWholeWords | kernel/mem/pmm.cpp:50 | The scan of pmm_alloc_page covers all frames but the last max_frames mod 32, so fewer than 32 are never handed out; the bitmap has a bit for every frame. |
| PmmLaws.InitialStateIsExact | kernel/mem/pmm.cpp:27-46 | A frame below max_frames is free after init_pmm if and only if some usable region touches it and no reserved range does, for any number, order and overlap of regions. |
| PmmLaws.FrameOfRangeIff | kernel/mem/pmm.cpp:71-86 | A range touches a frame if and only if it starts before the end of the frame and ends behind its start. |
| PmmLaws.ReservedIff | kernel/mem/pmm.cpp:42-45 | A frame is reserved if and only if it is below 256 or in the pages of the kernel image, of the memory map, or of the bitmap: its 4 * ((max_frames + 31) / 32) bytes from the first page boundary at or behind kernel_end. |
| PmmLaws.FreeAfterInitIff | kernel/mem/pmm.cpp:27-46 | A frame below max_frames is free after init_pmm if and only if a usable region of the memory map overlaps its 4096 bytes and it is none of those reserved ones. |
| PmmLaws.InitStaysInsideIff | kernel/mem/pmm.cpp:71-86 | init_pmm leaves the memory behind its bitmap alone, whatever it held, if and only if every non-empty range ends inside the bitmap. |
| PmmLaws.ConformingMapLeavesBitmap | boot/multiboot_helpers.cpp:5-7 | For every memory map with usable memory up to mem_upper kilobytes past the first megabyte, as the Multiboot specification has it, and with less than 4 GB counted, init_pmm changes memory behind the bitmap. |
| PmmLaws.HeldFramesStayOut | kernel/mem/pmm.cpp:48-69 | Over every run of allocations and frees, frame 0 stays reserved, a frame that is still held is never handed out, and an allocation fails if and only if all scanned frames are used. |
| PmmLaws.FreeUndoesAlloc | kernel/mem/pmm.cpp:63-69 | The guards of pmm_free_page pass every allocated address, and freeing it restores the state before the allocation. |
| PmmLaws.LowFramesStayUsed | kernel/mem/pmm.cpp:48-69 | Frames below f stay used through every run that gives none of them back. |
| PmmLaws.FreedFrameIsReused | tests/libc_test.cpp:33-44 | A frame that was handed out and is freed after any requests that give back none below it is the next one to be handed out. |
| PageTables.EntryWritten | kernel/mem/vmm.cpp:81-85 | A store to one table entry sets or removes exactly one key of the map that directory and tables stand for. |
| PageTables.DataWritten | kernel/mem/vmm.cpp:81-85 | A store to a frame that is no table leaves the map as it is. |
| PageTables.TableAdded | kernel/mem/vmm.cpp:66-77 | A zeroed table in a free frame keeps tables distinct, used and non-zero, and leaves the map as it is. |
| PageTables.WalkAgrees | kernel/mem/vmm.cpp:124-143 | The map that directory and tables stand for is the one that the page walk of the processor finds (Intel SDM Vol. 3A, section 4.3), for every address; so is the answer of get_physical_address. |
| PageTables.LoopEndsIff | kernel/mem/vmm.cpp:118 | Unless PANIC ends it, the loop of map_region ends if and only if the pages of its range end below the end of the address space: otherwise its counter is in the range after every number of rounds. |
| PageTables.RegionPagesIff | kernel/mem/vmm.cpp:117-122 | A page is mapped by map_region if and only if the end of the range does not wrap around and the page starts less than size bytes behind the first one. |
| PageTables.RegionCoveredIff | kernel/mem/vmm.cpp:117-122 | All bytes of a range are mapped by map_region if and only if its end does not wrap and the offset of its start does not push it over a page boundary. |
| PageTables.RegionTranslates | kernel/mem/vmm.cpp:117-143 | In a covered region get_physical_address moves every byte by the distance between the two start addresses, as a sum of 32-bit words. |
| Vmm.AddressSpace.constructor | kernel/mem/vmm.cpp:24 | The cleared directory stands for the empty map. |
| Vmm.AddressSpace.AllocPageTable | kernel/mem/vmm.cpp:145-154 | A zeroed frame, the lowest free one, with the rest of memory unchanged; or 0. |
| Vmm.AddressSpace.EnsureTable | kernel/mem/vmm.cpp:61-77 | Afterwards the entry is present, or no frame is left; a new one is present and writable; the map is unchanged, data frames keep their contents, and a frame newly in use was free and is a page table. |
| Vmm.AddressSpace.WriteEntry | kernel/mem/vmm.cpp:79-85 | Exactly one key of the map is set or removed, the word at its place in its table is the entry, and no data frame changes. |
| Vmm.AddressSpace.AllocDataFrame | kernel/mem/heap.cpp:74-78 | A frame that was free, so it holds no table; if there is none, no frame is left. |
| Vmm.AddressSpace.FreeDataFrame | kernel/mem/pmm.cpp:63-69 | Giving back a data frame changes neither the map nor the tables, and no other frame. |
| Vmm.AddressSpace.PutData | kernel/mem/heap.cpp:81-85 | A store to a data frame leaves the map and the table invariant as they are. |
| Vmm.AddressSpace.MapPage | kernel/mem/vmm.cpp:54-87 | The map changes at exactly one key, also when a table is allocated; the word where the processor looks is the frame with the present and the writable bit; data frames keep their contents, only frames that were free come into use, as page tables, and PANIC means that no frame is left. |
| Vmm.AddressSpace.UnmapPage | kernel/mem/vmm.cpp:89-115 | Exactly one key is removed, also when there was no table. |
| Vmm.AddressSpace.GetPhysicalAddress | kernel/mem/vmm.cpp:124-143 | Lookup in the map with the page offset kept; 0 for a page that is not mapped. |
| Vmm.AddressSpace.MapRegion | kernel/mem/vmm.cpp:117-122 | Where the loop ends (`PageTables.LoopEndsIff`): adds exactly the consecutive pages of the region, on frames that wrap around like physical addresses, and leaves all others alone, also when the end wraps around and nothing is mapped; or no frame is left. |
| Vmm.AddressSpace.MapUsable | kernel/mem/vmm.cpp:40-44 | Adds the images of all usable regions, later ones over earlier ones, and takes frames only for tables. |
| Vmm.AddressSpace.InitVmm | kernel/mem/vmm.cpp:20-52 | Ends with exactly the boot map, or with no frame left; only page tables are newly in use. |
| VmmLaws.HighMapIsImage | kernel/mem/vmm.cpp:40-44 | For every set of usable regions with which the loop ends, with any overlap and also where addresses wrap around: a page is mapped for them if and only if some region maps the one frame whose image it is, and then to that frame. |
| VmmLaws.BootMapIsExact | kernel/mem/vmm.cpp:20-52 | For every memory map with which init_vmm ends and every virtual page: whether the page is mapped, and to which frame. |
| VmmLaws.BootAddresses | kernel/mem/vmm.cpp:20-52 | The same for every 32-bit address, by addresses: the VGA page is itself; where a usable region has its image, the address plus 1 GB modulo 4 GB; in the pages of the kernel mapping, the kernel; below 4 MB itself; nothing else is mapped. |
| VmmLaws.LowMemoryIsIdentityIff | kernel/mem/vmm.cpp:26-27 | Every address below 4 MB translates to itself after init_vmm if and only if no usable region has pages of its image there, but for the VGA page alone. |
| VmmLaws.UsableMemoryAtOneGigabyte | kernel/mem/vmm.cpp:42 | With a usable page at one gigabyte, address 0x123 translates to 0x40000123 after init_vmm. |
| VmmLaws.DirectIff | kernel/mem/vmm.cpp:31-44 | The image of a frame in high memory is mapped to it if and only if some usable region maps the frame, or the kernel mapping does and starts at frame 0. |
| VmmLaws.DirectMapAfterBoot | kernel/mem/vmm.cpp:40-44 | Every byte of a covered usable region is found at its physical address plus HIGH_MEMORY_BASE, also over the kernel mapping, and whatever the other regions are. |
| VmmLaws.CoveredIff | kernel/mem/vmm.cpp:117-122 | A non-empty region that starts in the first gigabyte has all the frames it touches mapped if and only if its image ends below 4 GB and its start does not push it over a page boundary. |
| VmmLaws.RegionMissingIff | kernel/mem/vmm.cpp:118 | init_vmm maps no page at all for a region if and only if its size is 0 as a 32-bit word or the end of its image wraps around. |
| VmmLaws.UsableMemoryBelowOneGigabyte | kernel/mem/vmm.cpp:42 | With half a page of usable memory at the end of the first gigabyte, the loop of map_region never ends. |
| VmmLaws.UsableMemoryAcrossFourGigabytes | kernel/mem/vmm.cpp:42 | A usable region that crosses 4 GB is mapped, and its part behind 4 GB to the frames from 0 on. |
| Boot.FreeFrameIsDirect | kernel/kernel.cpp:44-46 | A frame that is still free after the two initialisers lies in a usable region, and its image is mapped to it if the regions it lies in are covered. |
| Boot.Boot | kernel/kernel.cpp:44-46 | init_pmm and init_vmm, on the caller's arrays, leave the boot map or no free frame; frames in use are the initial ones and page tables; no page table lies in the first megabyte, the kernel image, the memory map or the bitmap, nor does the frame that init_heap takes, which lies in a usable region and is mapped directly if that is covered. |
| Boot.BootAndRun | kernel/kernel.cpp:44-46 | No heap comes out only if every frame below 0x20000 and below max_frames - max_frames mod 32 is in use. Otherwise, after any run of a client: the heap is valid and ends at or below 0xE0000000, on the given arrays, each of its pages translates to a frame of its own that is in use and holds no page table; list, pointers and written words are those of the script, and no kmalloc failed if frames are left and none was given back. |
| Blocks.Round4 | kernel/mem/heap.cpp:27 | The request is rounded up to the next multiple of 4, and becomes 0 exactly when that wraps around. |
| Blocks.FirstFit | kernel/mem/heap.cpp:31-52 | The found block is free and has at least the bytes asked for, and no earlier one does. |
| Blocks.PagesHoldBlockIff | kernel/mem/heap.cpp:66-67 | The pages that expand_heap asks for hold header and payload if and only if the sums do not wrap around, and then with less than a page to spare. |
| Blocks.TakeCounts | kernel/mem/heap.cpp:33-49 | Splitting a block or using it whole accounts for the same bytes, and the used blocks are the old ones with one more in its place. |
| Blocks.TakeShape | kernel/mem/heap.cpp:33-49 | Blocks stay aligned, ordered, disjoint and inside the heap. |
| Blocks.TakeCoalesced | kernel/mem/heap.cpp:33-49 | A split leaves no two free neighbours. |
| Blocks.GrowCounts | kernel/mem/heap.cpp:81-99 | An expansion accounts for the bytes of its pages less a slack of at most 20, and adds one used block. |
| Blocks.GrowShape | kernel/mem/heap.cpp:81-99 | The new blocks are aligned, behind all others and below the new limit. |
| Blocks.GrowCoalesced | kernel/mem/heap.cpp:81-99 | An expansion leaves no two free neighbours. |
| Blocks.CoalesceShape | kernel/mem/heap.cpp:103-117 | Coalescing ends with no two free neighbours and keeps the list ordered, disjoint and in its range. |
| Blocks.CoalesceCounts | kernel/mem/heap.cpp:103-117 | Coalescing accounts for the same bytes and keeps every used block as it is, in order. |
| Blocks.ReleaseLaws | kernel/mem/heap.cpp:59-63 | kfree keeps the shape, the normal form and the bytes; the freed block is the only one to leave the used blocks. |
| Blocks.FreeingAllLeavesOneBlock | kernel/mem/heap.cpp:59-63 | Freeing all used blocks in any order leaves one free block of all accounted bytes less one header. |
| BlockLaws.MallocFailsIff | kernel/mem/heap.cpp:24-57 | kmalloc hands out nothing if and only if the rounded request is 0, or no free block has so many bytes and the pages that could be had do not hold them and a header of 16; the blocks are then unchanged, and the limit has advanced by those pages. |
| BlockLaws.GrantFromList | kernel/mem/heap.cpp:33-49 | The first free block that is large enough is cut at the rounded size if it has at least 20 bytes more, with a free block from there to its old end, and used whole otherwise; nothing else changes. |
| BlockLaws.GrantFromPages | kernel/mem/heap.cpp:65-102 | If no block is large enough, as few pages as hold block and header are added, and the grant starts at the old limit; more than 20 bytes left over become one free block up to the new limit. |
| BlockLaws.GrantIsTight | kernel/mem/heap.cpp:24-57 | Every grant has at least the rounded size and fewer than 20 bytes more. |
| BlockLaws.TwoSmallBlocks | kernel/mem/heap.cpp:24-57 | On a heap of one fresh page, two calls kmalloc(8) return its start plus 16 and plus 40, without a page more. |
| BlockLaws.MarkAt | kernel/mem/heap.cpp:61 | kfree frees the block at its address and no other. |
| BlockLaws.CoalesceGroups | kernel/mem/heap.cpp:103-117 | Each block after coalescing is an old one, or stands for consecutive free ones with the headers between them. |
| BlockLaws.GroupingIsUnique | kernel/mem/heap.cpp:103-117 | Only one grouping of a list in that way leaves no two free neighbours, so coalescing is determined by that. |
| Blocks.GrantIsLarge | kernel/mem/heap.cpp:24-57 | What kmalloc hands out is a used, 4-aligned block of at least the requested bytes. |
| Blocks.GrantIsOneMore | kernel/mem/heap.cpp:24-57 | It is the only block that comes into use, and none goes out of use. |
| Blocks.GrantIsApart | kernel/mem/heap.cpp:24-57 | It overlaps neither header nor payload of any other block. |
| Blocks.GrantIsNew | kernel/mem/heap.cpp:24-57 | It lies where no block in use was. |
| Blocks.StepSound | kernel/mem/heap.cpp:24-117 | Every call, also an expansion that fails half-way, keeps shape, normal form and page-aligned limit. |
| Blocks.StepSlack | kernel/mem/heap.cpp:65-102 | A successful expansion loses at most 20 bytes to slack, a failed one exactly its pages, any other call none; no call gains any. |
| Blocks.StepKeepsUsed | kernel/mem/heap.cpp:24-117 | A used block keeps place and size through every call but its own kfree. |
| Blocks.RunLaws | kernel/mem/heap.cpp:12-117 | In every reachable state the list is in shape and coalesced, and the bytes that no block accounts for are bounded by 20 for each successful expansion and the pages of each failed one. |
| Blocks.UsedBlockSurvives | kernel/mem/heap.cpp:24-117 | Through every run without its own kfree a used block keeps its place, size and used status. |
| HeapMemory.TranslateFindsCell | kernel/mem/vmm.cpp:124-143 | For a heap address the page walk ends at the word of its frame that the heap's view of memory reads. |
| HeapMemory.CellsApart | kernel/mem/heap.cpp:73-80 | Different heap addresses are different words of physical memory. |
| HeapMemory.StoreLaws | kernel/mem/heap.cpp:81-85 | A store at a heap address changes what is read there and nowhere else, and keeps every page backed. |
| HeapMemory.HeapFitsMemory | kernel/mem/heap.cpp:73-80 | However far the heap has grown, it ends below the image of the last frame, because its frames are distinct. |
| HeapMemory.BackingGrows | kernel/mem/heap.cpp:73-80 | A fresh frame mapped at the limit is one more page behind the heap; the frames stay distinct and apart from the tables, and old contents stay. |
| HeapMemory.BackingKept | kernel/mem/vmm.cpp:54-87 | Backing and contents of the heap outlive every page-table change that leaves its pages mapped. |
| HeapMemory.TakeLinked | kernel/mem/heap.cpp:33-49 | If only bytes of the taken block change and hold the headers of the split, memory holds the new list and no payload has changed. |
| HeapMemory.ExpandLinked | kernel/mem/heap.cpp:81-99 | After the stores of an expansion memory holds the extended list, and no payload has changed. |
| HeapMemory.MergeLinked | kernel/mem/heap.cpp:106-112 | After the stores of a merge memory holds the merged list, and no payload has changed. |
| HeapMemory.MarkLinked | kernel/mem/heap.cpp:61 | The store to is_free leaves every link and every payload as it is. |
| Heap.KernelHeap.constructor | kernel/mem/heap.cpp:12-22 | If a frame was left and its image lies below the framebuffer, the heap is one free block of 4080 bytes in that image, at 0xC0000000 plus the address of the frame, backed by that frame alone; where the heap starts tells whether it is so. |
| Heap.KernelHeap.Store | kernel/mem/heap.cpp:81-85 | A store through the page tables changes one word of the heap and keeps every page backed. |
| Heap.KernelHeap.GrowPage | kernel/mem/heap.cpp:73-80 | One more page backed by the lowest free frame; or no frame is left, with limit and contents unchanged. |
| Heap.KernelHeap.GrowPages | kernel/mem/heap.cpp:73-80 | The limit advances by the pages that could be had; old contents stay, frames are taken only for heap pages and tables, and a shortfall means that no frame is left. |
| Heap.KernelHeap.AppendBlocks | kernel/mem/heap.cpp:81-99 | Memory holds the new used block and its free tail, linked from the last block; nothing else below the old limit changes. |
| Heap.KernelHeap.TakeBlock | kernel/mem/heap.cpp:33-49 | Memory holds the list with the block split or used whole, and no payload of a used block changes. |
| Heap.KernelHeap.SplitOff | kernel/mem/heap.cpp:35-42 | The stores of a split write two headers that lead to the old successor, within the bytes of the block. |
| Heap.KernelHeap.ExpandHeap | kernel/mem/heap.cpp:65-102 | On success the list is extended at the old limit; on failure the blocks are unchanged, the limit stays where it got and no frame is left. |
| Heap.KernelHeap.FindFit | kernel/mem/heap.cpp:31-52 | The walk along next ends at the first fitting block, or with NULL and the last block of the list. |
| Heap.KernelHeap.Kmalloc | kernel/mem/heap.cpp:24-57 | Every page stays backed and the list valid; the list changes as the laws in Blocks and BlockLaws say, the pointer is the payload of the granted block or NULL, no payload in use changes, NULL for a proper request means that no frame is left, and frames are taken only for heap pages and tables. |
| Heap.KernelHeap.MergeNext | kernel/mem/heap.cpp:106-112 | Memory holds the list with two free neighbours merged; no payload changes. |
| Heap.KernelHeap.CoalesceFreeBlocks | kernel/mem/heap.cpp:103-117 | The loop ends with the coalesced list in memory; no payload of a used block changes. |
| Heap.KernelHeap.Kfree | kernel/mem/heap.cpp:59-63 | For a live pointer: the list changes as the laws in Blocks say, and no payload still in use changes. |
| Heap.KernelHeap.StorePayload | kernel/mem/heap.cpp:56 | An owner's store within its payload keeps the heap valid, its list and all other payloads. |
| Heap.KernelHeap.MapElsewhere | drivers/display/vbe.cpp:18 | map_page outside the heap's range keeps the heap valid and its memory unchanged. |
| Heap.KernelHeap.TakeFrame | kernel/mem/pmm.cpp:48-61 | A frame taken by other code is none of the heap's, and the heap stays as it is. |
| Heap.KernelHeap.GiveFrame | kernel/mem/pmm.cpp:63-69 | Giving such a frame back leaves the heap valid and its memory unchanged. |
| Heap.KernelHeap.PagesAreBacked | kernel/mem/heap.cpp:65-80 | Every page up to the limit translates to its own frame; the frames are pairwise distinct, marked used, and none holds a page table. |
| HeapRuns.ServedAllList | kernel/mem/heap.cpp:24-117 | The list after a script of a client is the list after its calls, so that the laws of runs in Blocks hold for it. |
| HeapRuns.ScriptLaws | kernel/mem/heap.cpp:24-117 | Along every script the list stays in shape and coalesced, and the bytes that no block accounts for are bounded by the expansions made. |
| HeapRuns.FailsIff | kernel/mem/heap.cpp:24-57 | The failures that the runs speak of are those of a non-empty request that no free block and no page that could be had can serve, where its pages would have stayed below the framebuffer. |
| HeapRuns.AllocateIsServed | kernel/mem/heap.cpp:24-57 | In a script every kmalloc is carried out that a free block can serve, or whose pages stay below the framebuffer, or that runs on a machine with at most 512 MB. |
| HeapRuns.Client.Do | kernel/mem/heap.cpp:24-63 | Each step of a client (kmalloc, kfree, a store, map_page, taking and giving back a frame) has its effect on list, pointers, written words and frames; a kmalloc fails only without a frame left; heap, backing and the blocks of other owners stay intact. |
| HeapRuns.RunClient | kernel/mem/heap.cpp:24-63 | Over whole scripts, from any pointers and frames held: list, pointers and written words are those that the script says, and the words are still there; the lost bytes are bounded; no kmalloc failed if frames are left and none was given back; every block of another owner keeps place, size, used status and payload, also when blocks are freed that were in use at the start. |
| AtaDevice.DecodesIff | drivers/blocks/ata/ata_pio.c:274-278 | The drive/head register asks for a sector number (bit 6), has bits 7 to 5 set and the drive in bit 4; the device decodes address and count as they were meant if and only if the address has 28 bits and the count is 1 to 256. |
| AtaDevice.TransfersSizeIff | drivers/blocks/ata/ata_pio.c:263 | The sectors cover the requested bytes with fewer than 512 to spare, and match them if and only if the size is a multiple of 512. |
| AtaDevice.StepsAfter | drivers/blocks/ata/ata_pio.c:380-392 | Under every interleaving of device and interrupt handler one busy period raises one interrupt: it is latched or the flag is set, never both and never neither; their remaining work never grows. |
| AtaDevice.NoDeadlock | drivers/blocks/ata/ata_pio.c:305-308 | While the driver awaits the flag, a step of device or handler is always possible, and each one brings the flag nearer. |
| AtaDevice.WrittenSector | drivers/blocks/ata/ata_pio.c:350-369 | After a write each addressed sector holds its words and no other sector has changed. |
| Ata.Driver.PollBusy | drivers/blocks/ata/ata_pio.c:299 | The poll ends under every interleaving and loses no interrupt. |
| Ata.Driver.AwaitInterrupt | drivers/blocks/ata/ata_pio.c:305-309 | The wait ends; the device has finished, or failed where it may, and exactly its one interrupt has been consumed. |
| Ata.Driver.Command | drivers/blocks/ata/ata_pio.c:274-294 | The device is busy with the job of the command byte, on the drive, sector and count that were asked for, and no older interrupt is left. |
| Ata.Driver.ReadSector | drivers/blocks/ata/ata_pio.c:310-312 | The buffer holds the device's current sector at its place and is otherwise unchanged. |
| Ata.Driver.ReadLba28 | drivers/blocks/ata/ata_pio.c:260-314 | For 1 to 256 sectors and every interleaving, the buffer holds the sectors from lba on, in order; the rest of the buffer and the drives are unchanged and no interrupt is left over. |
| Ata.Driver.PollRequest | drivers/blocks/ata/ata_pio.c:354-360 | The poll ends, with ERR only if the device failed. |
| Ata.Driver.WriteSector | drivers/blocks/ata/ata_pio.c:362-364 | The device commits exactly the 256 words of the buffer at the given place. |
| Ata.Driver.SendSector | drivers/blocks/ata/ata_pio.c:362-368 | The next sector of the drive is the one sent, or the device failed and the drives are unchanged. |
| Ata.Driver.WriteLba28 | drivers/blocks/ata/ata_pio.c:315-378 | Only the words of the sectors before an ERR go over the wire; the drives hold the committed sectors and are otherwise unchanged; without faults all sectors are committed. If a sector is missing, the call returns at ERR if and only if it is not the last one or the command itself failed; after ERR no interrupt is left, unless no sector was sent. |
| Ata.Driver.Flush | drivers/blocks/ata/ata_pio.c:370-377 | The flush ends with the drives unchanged and its interrupt consumed; the device may have failed, which the driver does not look at. |
| Ata.WriteThenRead | drivers/blocks/ata/ata_pio.c:260-378 | A write and a read of the same sectors give back the same words, and no other sector of either drive changes. |
| Ata.ErrorsGoUnseen | drivers/blocks/ata/ata_pio.c:350-377 | From every quiet channel and for every number of sectors there is a run of a whole call that goes through with all sectors but the last on the drive, and one in which the flush fails. |
| Keyboard.ScancodeTable | drivers/keyboard.cpp:10-34 | The character of every scancode, row by row; all other scancodes have none. |
| Keyboard.LineGrows | drivers/keyboard.cpp:74-90 | The line up to the first Enter changes by one edit per key and is settled after Enter. |
| Keyboard.LineAfterKey | drivers/keyboard.cpp:74-90 | One key more, case by case: after Enter, and for Enter or a key without a character, the line stays; a backspace takes its last character; any other key is added while there are fewer than 255. |
| Keyboard.LineUnchangedIff | drivers/keyboard.cpp:74-90 | Exactly which keys leave the line as it was. |
| Keyboard.SilentKeys | drivers/keyboard.cpp:84 | Leaving out all keys without a character, such as Shift, changes neither the line nor what is left of it. |
| Keyboard.SplitAtEnter | drivers/keyboard.cpp:76-78 | The line is made of the keys before the first Enter; those behind it are the ones that can shorten it. |
| Keyboard.LineIsText | drivers/keyboard.cpp:84-86 | A line always fits the buffer with its terminator and holds no NUL, Enter or backspace. |
| Keyboard.TypedTextIsKept | drivers/keyboard.cpp:84-86 | Plain typing is kept as it is up to 255 characters. |
| Keyboard.BackspaceUndoesIff | drivers/keyboard.cpp:78-82 | A backspace undoes the character before it if and only if there was room for that character. |
| Keyboard.LeftAfterKey | drivers/keyboard.cpp:78-82 | After Enter, each backspace still takes one character away from the line that waits, and no other key changes it. |
| Keyboard.WholeLineIff | drivers/keyboard.cpp:78-82 | The whole line is still there if and only if it is empty or no backspace followed Enter. |
| Keyboard.BackspacesCount | drivers/keyboard.cpp:79-82 | Each backspace behind Enter counts once. |
| Keyboard.FittingIsMost | drivers/keyboard.cpp:58-62 | As many characters are copied as there are and as fit before the terminator. |
| Keyboard.LineEditor.Handler | drivers/keyboard.cpp:69-95 | The state stays valid for one key more; while a line is ready the buffer is frozen, and the position is exactly what the keys leave of the line. |
| Keyboard.LineEditor.Interrupts | drivers/keyboard.cpp:69-95 | The same for any number of keys. |
| Keyboard.LineEditor.CopyLine | drivers/keyboard.cpp:58-61 | With keys pressed during the copy, a prefix of the line is copied; its length lies between what fits of the line left at the end and of the line left at the start of the copy. |
| Keyboard.LineEditor.GetInputBuffer | drivers/keyboard.cpp:55-67 | With keys pressed between all steps, a line is delivered if and only if Enter was pressed; it is a terminated prefix of the edited keys before the first Enter, of exactly the length that was left and fits unless a backspace comes during the copy, and between the two lengths then. |
| Keyboard.ShortenedLine | drivers/keyboard.cpp:55-82 | Of a line of two letters, with Enter and a backspace behind it, at most one letter is delivered, whatever other keys come in between. |
| ClockLaws.RunKeepsTags | drivers/clock/clock.cpp:76-94 | Over every run, timers can be told apart by the number of their creation. |
| ClockLaws.RunOnTime | drivers/clock/clock.cpp:39-45 | Through every run of ticks, creations and destructions, an armed timer runs once, on its tick, if it is not destroyed before, and never if it is. |
| ClockLaws.FiresExactlyOnce | drivers/clock/clock.cpp:76-88 | A timer created at tick t for ms milliseconds runs its callback exactly once, on tick t + max(ms, 1), if it is not destroyed before, and never if it is; other timers may share its callback, have run before, or use its slot later. |
| ClockLaws.SlowCreationArmsIff | drivers/clock/clock.cpp:81-84 | With ticks between the steps of a creation, the slot is armed with its callback if and only if no tick between the last two stores finds the delay passed. |
| ClockLaws.SlowCreationRunsOldCallbackIff | drivers/clock/clock.cpp:81-84 | The slot's previous callback runs once more, on the first tick that finds the delay passed, if and only if such a tick occurs, also when it has had its turn before. |
| ClockDriver.TimerTable.Handler | drivers/clock/clock.cpp:25-47 | Ticks stay 1000 times the seconds plus a divider below 1000; at most 10 timer callbacks run even if callbacks create and destroy timers; if they do not, the clock changes by one tick of the laws. |
| ClockDriver.TimerTable.CreateTimer | drivers/clock/clock.cpp:76-88 | The first inactive slot is armed and returned, or -1 and nothing changes. |
| ClockDriver.TimerTable.DestroyTimer | drivers/clock/clock.cpp:90-94 | The slot is inactive; any other id changes nothing. |
| Vbe.ForwardCopyMoves | libc/mem.cpp:4-11 | The ascending copy equals a copy through a second buffer when it does not run behind its source. |
| Vbe.CopyMovesIff | libc/mem.cpp:4-11 | It does so for all contents of a buffer if and only if the destination starts at or before the source, or past its end. |
| Vbe.Memcpy | libc/mem.cpp:4-11 | The buffer after the loop is the byte-by-byte copy that the two laws are about. |
| Vbe.Fill | drivers/display/vbe.cpp:65-67 | The pixels have the color, byte by byte, and no other byte changes. |
| Vbe.BytesOfWord | drivers/display/vbe.cpp:65-67 | The four bytes stored for a pixel make up its color, the lowest first. |
| Vbe.ScrollUp | drivers/display/vbe.cpp:52-68 | The screen holds its lower part at the top and the background below; nothing behind the screen changes. |
| Vbe.ScrolledRows | drivers/display/vbe.cpp:52-68 | Row r is old row r + 8 * lines wherever that is a row, and background otherwise, for any height and any pitch that is a multiple of 4. |
| Text.DigitsRoundTrip | libc/string.cpp:44-63 | Decimal digits parse back to the number and have no leading zero but for 0 itself. |
| Text.DigitsLength | libc/string.cpp:24-32 | n digits suffice if and only if the number is below 10^n. |
| Text.TenDigitsSuffice | libc/string.cpp:45 | A 32-bit int fits the static buffer. |
| Text.NbDigits | libc/string.cpp:24-32 | The count is the length of the decimal number; 0 for a negative one. |
| Text.Int2String | libc/string.cpp:44-63 | The buffer holds exactly the decimal digits, terminated; nothing for a negative number. |
| Text.HexRoundTripIff | libc/string.cpp:66-80 | n hexadecimal digits parse back to the value if and only if it is below 16^n. |
| Text.HexLetters | libc/string.cpp:66-80 | The digits are 0 to 9 and A to F, in this order. |
| Text.PtrToHex | libc/string.cpp:66-80 | The buffer holds 0x and the eight digits of the word, most significant first, terminated. |
| Text.StrCmp | libc/string.cpp:82-88 | Zero if and only if the strings are equal; otherwise its sign is their lexicographic order. |
| Text.ArgumentTexts | libc/string.cpp:99-123 | A string argument is printed as it is, a number as decimal digits that parse back to it (a negative one as nothing), a pointer as 0x and eight hexadecimal digits that parse back to it. |
| Text.DirectiveExpands | libc/string.cpp:96-130 | %d, %x and %s stand for the next text; a percent sign before any other character stands for that character. |
| Text.TextIsHeld | libc/string.cpp:101-104 | A buffer with a terminator holds its characters up to the first one. |
| Text.BufferAt | libc/string.cpp:99-114 | When an argument is reached, a static buffer says what the last %d or %x before it left there, or what it said at the call. |
| Text.ShownAsMeantIff | libc/string.cpp:90-137 | Every directive prints the text that its argument had at the call if and only if no argument that is a static buffer comes behind a %d or %x that leaves other text in it. |
| Text.NumberPrintedTwice | libc/string.cpp:45-62 | `printk("%d %s", 5, int2String(7))` prints 5 twice. |
| Text.Printer.PutArgument | libc/string.cpp:99-123 | Each directive prints its argument through the static buffers, and %d and %x leave their text there. |
| Text.Printer.Printk | libc/string.cpp:90-137 | The console receives the format with the text of each argument at the time when it is reached, for every format that does not end in a directive; that is what the caller meant where no static buffer is overwritten. |
| Text.PlainTextPrintsItself | libc/string.cpp:131-134 | Text without directives is printed as it is, whatever format and texts follow it. |
| Text.EscapedTextRoundTrip | libc/string.cpp:124-127 | Any text with its percent signs doubled is printed as it was. |

## Left out

- Heap.KernelHeap.Kmalloc: requests whose size plus header plus 4095 wraps around are excluded; `Blocks.PagesHoldBlockIff` says that for exactly these expand_heap asks for too few pages. So is an expansion past the address of the framebuffer, which the code does not check; with at most 512 MB of memory there is none.
- Heap.KernelHeap.Kfree: pointers that kmalloc did not return, or that were freed before, are excluded, as the code does not check them.
- Heap.KernelHeap.constructor: init_heap does not check that a frame was left, or where its image lies; the header it then writes elsewhere is not modelled. The image must be mapped to its frame, as `Boot.Boot` provides where map_region covers the usable regions.
- Pmm.FrameBitmap.constructor: memory must extend to the last frame touched, since the code checks no bound; `PmmLaws.InitStaysInsideIff` says when that goes past the bitmap.
- Vmm.AddressSpace.MapRegion: ranges on which the loop never ends are excluded; `PageTables.LoopEndsIff` says that these are exactly the ones whose last page is the last of the address space.
- Multiboot.GetUsableRegions: more usable records than the array holds are excluded, since max_regions is never looked at.
- Vbe.ScrollUp: the screen size must be a 32-bit word; vbe_init allocates the buffer by the same product.
- Keyboard.LineEditor.GetInputBuffer: a buffer of no characters is excluded, since the terminator is stored in any case.
- Text.Printer.Printk: the format string has an argument for every directive and no single percent sign at its end; printk would read past both. A string argument is a string of its own or the start of a static buffer, not a pointer into the middle of one.
- Ata.Driver.WriteLba28: after a return at ERR before the first sector an interrupt can be on its way, or its flag set; the next command starts from a quiet channel by assumption then.
- The prev fields of the heap: they are stored, but nothing reads them and the code does not keep them right, so nothing is claimed.
- Accesses to page tables beyond the first 4 MB once paging is on: the model reaches every table at its physical address.
- Port I/O, loading CR3, turning on paging and flushing the TLB: hardware effects without a visible value.
- Wrap-around of the 64-bit tick and second counters, and torn reads of them.
- clock_sleep_ms: a busy wait on the tick counter.
- ata_select_drive and the poll that follows it: the channel is quiet there by assumption, so the poll ends at once.
- ata_identify and ata_init: polling and field extraction.
- Faults of the ATA read path: the driver does not look at ERR there and would wait for ever.
- Console and screen drivers, fonts, RTC, PIT, PIC masks, interrupt dispatch and the block-device registry: wrappers and tables.
- vbe_put_pixel, vbe_clear_screen, vbe_swap_buffer and the drawing functions: one-line stores and copies.
- UniquePtr, types.hpp, len, memset, print_heap_info and print_vmm_info: only easy members.
- mset is modelled a word at a time, since it is only used on whole words.
