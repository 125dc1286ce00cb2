/** The order of kernel_main: frames, page tables, heap; and then a run of a client of the heap. */
module Boot {
  import opened Words
  import opened Multiboot
  import opened Pmm
  import opened PmmLaws
  import PageTables
  import opened Vmm
  import opened VmmLaws
  import opened HeapMemory
  import opened Heap
  import opened HeapRuns
  import Blocks

  /** The frame that init_heap will take. */
  function HeapFrame(used: set<nat>, maxFrames: nat): nat {
    LowestFree(used, ScannedFrames(maxFrames))
  }

  /** Every region that touches frame f is covered by map_region. */
  predicate CoveredAt(regions: seq<Region>, f: nat) {
    forall r <- regions :: f in FramesOf(r.addr, r.len) ==> Covered(r)
  }

  /** The pages that map_region maps for a covered region are all the frames that free_region frees for it. */
  lemma FreedFramesAreMapped(r: Region, f: nat)
    requires Covered(r) && f in FramesOf(r.addr, r.len)
    ensures MapsFrame(r, f) && f < HIGH_FRAMES
  {
    CoveredFrame(r, f);
  }

  /**
   * A frame that is still free lies in a usable region; if the regions it lies in are covered, init_vmm has
   * mapped it directly.
   */
  lemma FreeFrameIsDirect(before: set<nat>, maxFrames: nat, usable: seq<Region>, reserved: seq<Region>,
                          used: set<nat>, kernelStart: Word, kernelEnd: Word, f: nat)
    requires kernelStart <= kernelEnd && forall r <- usable :: HighImageEnds(r)
    requires InitialUsed(before, maxFrames, usable, reserved) <= used
    requires f < maxFrames && f !in used
    ensures InSome(f, usable)
    ensures CoveredAt(usable, f) ==> Direct(BootMap(kernelStart, kernelEnd, usable), f)
  {
    hide InitialUsed, BootMap, FramesOf, MapsFrame, EndFrame, FirstFrame, HighImageEnds, Covered, KernelPages;
    InitialStateIsExact(before, maxFrames, usable, reserved, f);
    assert InSome(f, usable);
    var r :| r in usable && f in FramesOf(r.addr, r.len);
    if CoveredAt(usable, f) {
      FreedFramesAreMapped(r, f);
      SomeMapsFrameOf(usable, r, f);
      DirectIff(kernelStart, kernelEnd, usable, f);
    }
  }

  lemma ReservedAreUsed(before: set<nat>, info: BootInfo, kernelStart: nat, kernelEnd: nat, usable: seq<Region>)
    requires kernelStart <= kernelEnd
    ensures forall f: nat :: Reserved(info, kernelStart, kernelEnd, f) ==>
              f in InitialUsed(before, TotalMemory(info) / PAGE_SIZE, usable, ReservedRegions(info, kernelStart, kernelEnd))
  {
    hide Reserved, ReservedRegions, FramesOfAll;
    forall f: nat | Reserved(info, kernelStart, kernelEnd, f)
      ensures f in FramesOfAll(ReservedRegions(info, kernelStart, kernelEnd))
    {
      ReservedIff(info, kernelStart, kernelEnd, f);
    }
  }

  /** What init_pmm and init_vmm need of the machine; the last three lines are how the model lays out memory. */
  ghost predicate Bootable(info: BootInfo, records: RecordMemory, kernelStart: Word, kernelEnd: Word,
                           memory: array<Word>, directory: array<Word>, ram: array<Word>, entries: seq<MmapEntry>)
  {
    && kernelStart <= kernelEnd && PageTables.Mappable(HIGH_MEMORY_BASE, kernelEnd - kernelStart)
    && Tiles(records, info.mmapAddr, entries, info.mmapAddr + info.mmapLength)
    && |UsableRegions(entries)| <= 32
    && (forall r <- UsableRegions(entries) :: HighImageEnds(r))
    && BitmapWords(TotalMemory(info) / PAGE_SIZE) <= memory.Length
    && EndsBy(UsableRegions(entries), 32 * memory.Length)
    && EndsBy(ReservedRegions(info, kernelStart, kernelEnd), 32 * memory.Length)
    && memory != directory && memory != ram && directory != ram
    && directory.Length == PageTables.ENTRIES
    && ram.Length == TotalMemory(info) / PAGE_SIZE * PageTables.ENTRIES
  }

  /**
   * init_pmm and init_vmm. Unless the frames run out, the address space is the boot map, the frames in use
   * are the initial ones and the page tables, none of which lies in a reserved frame, and the frame that
   * init_heap takes next, if there is one, is not reserved either, and is mapped directly, provided that
   * map_region covers the usable regions it lies in.
   */
  method Boot(info: BootInfo, records: RecordMemory, kernelStart: Word, kernelEnd: Word,
              memory: array<Word>, directory: array<Word>, ram: array<Word>, ghost entries: seq<MmapEntry>)
    returns (ok: bool, vm: AddressSpace)
    requires Bootable(info, records, kernelStart, kernelEnd, memory, directory, ram, entries)
    modifies memory, directory, ram
    ensures vm.Valid() && vm.pmm.maxFrames == TotalMemory(info) / PAGE_SIZE == MaxFrames(info)
    ensures vm.pmm.bitmap == memory && vm.directory == directory && vm.ram == ram
    ensures if ok then vm.Map() == BootMap(kernelStart, kernelEnd, UsableRegions(entries)) else vm.OutOfFrames()
    ensures var initial := InitialUsed(UsedFrames(old(memory[..])), vm.pmm.maxFrames, UsableRegions(entries),
                                       ReservedRegions(info, kernelStart, kernelEnd));
            && initial <= vm.pmm.Used()
            && forall f <- vm.pmm.Used() :: f in initial || PageTables.IsTable(vm.directory[..], f)
    ensures forall f: nat :: Reserved(info, kernelStart, kernelEnd, f) ==>
              f in vm.pmm.Used() && !PageTables.IsTable(vm.directory[..], f)
    ensures ok ==> var f := HeapFrame(vm.pmm.Used(), vm.pmm.maxFrames);
                   f != 0 ==> InSome(f, UsableRegions(entries)) && !Reserved(info, kernelStart, kernelEnd, f)
                              && (CoveredAt(UsableRegions(entries), f) ==> Direct(vm.Map(), f))
  {
    hide InitialUsed, BootMap, UsedFrames, FrameBitmap.Used, AddressSpace.Valid, AddressSpace.Map, LowestFree, Tiles,
      UsableRegions, ReservedRegions, EndsBy, CoveredAt, HighImageEnds, InSome, Direct, Reserved;
    ghost var before := UsedFrames(memory[..]);
    ReservedAreUsed(before, info, kernelStart, kernelEnd, UsableRegions(entries));
    var pmm := new FrameBitmap(memory, info, records, kernelStart, kernelEnd, entries);
    ghost var initial := pmm.Used();
    vm := new AddressSpace(pmm, directory, ram);
    ok := vm.InitVmm(info, records, kernelStart, kernelEnd, entries);
    if ok {
      ghost var f := HeapFrame(vm.pmm.Used(), vm.pmm.maxFrames);
      if f != 0 {
        FreeFrameIsDirect(before, pmm.maxFrames, UsableRegions(entries), ReservedRegions(info, kernelStart, kernelEnd),
                          vm.pmm.Used(), kernelStart, kernelEnd, f);
      }
    }
  }

  /** The heap as init_heap leaves it, and a client that holds nothing. */
  function Initial(firstBlock: nat): State {
    State(Blocks.List([Blocks.Block(firstBlock, PAGE_SIZE - Blocks.HEADER, true)], firstBlock + PAGE_SIZE), [], [], map[])
  }

  /**
   * The three initialisers, and then any run of a client of the heap. No heap comes out only if no frame is
   * left whose image lies below the framebuffer. Otherwise the heap is valid: its list is in shape and
   * coalesced, and every page up to its limit is translated to a frame of its own that is in use and holds no
   * page table; the list, the pointers of the client and what it wrote are those that the script says, and no
   * kmalloc failed as long as frames were left. The usable regions with a frame whose image lies below the
   * framebuffer must be covered by map_region.
   */
  method BootAndRun(info: BootInfo, records: RecordMemory, kernelStart: Word, kernelEnd: Word,
                    memory: array<Word>, directory: array<Word>, ram: array<Word>, ghost entries: seq<MmapEntry>,
                    script: seq<Action>)
    returns (heap: KernelHeap?, pointers: seq<Grant>, taken: seq<Word>, ghost gots: seq<nat>, ghost end: State)
    requires Bootable(info, records, kernelStart, kernelEnd, memory, directory, ram, entries)
    requires forall f: nat :: f < 0x2_0000 ==> CoveredAt(UsableRegions(entries), f)
    requires forall a <- script :: IsCallable(a)
    modifies memory, directory, ram
    ensures heap == null ==>
              forall f: nat :: f < 0x2_0000 && f < MaxFrames(info) - MaxFrames(info) % 32 ==> f in UsedFrames(memory[..])
    ensures heap != null ==>
              && heap.vm.pmm.bitmap == memory && heap.vm.directory == directory && heap.vm.ram == ram
              && heap.vm.pmm.maxFrames == MaxFrames(info)
              && heap.Valid() && heap.heapLimit <= 0xE000_0000 && PagesApart(heap)
    ensures heap != null ==>
              && Runnable(script, gots)
              && end == ServedAll(Initial(heap.firstBlock), script, gots, heap.vm.pmm.maxFrames <= MAX_FRAMES)
              && heap.Now() == end.list && pointers == end.pointers
              && Holds(heap.blocks, pointers, end.owned, {}) && Remembered(heap.Memory(), end.owned, end.written)
              && HoldsFrames(heap.vm.Snapshot(), heap.frames, taken)
    ensures heap != null && (forall a <- script :: !a.GiveFrame?) && !heap.vm.OutOfFrames() ==>
              && Runnable(script, gots)
              && !FailsOnce(Initial(heap.firstBlock), script, gots, heap.vm.pmm.maxFrames <= MAX_FRAMES)
  {
    hide Bootable, AddressSpace.Valid, AddressSpace.Map, BootMap, InitialUsed, LowestFree, UsableRegions, ReservedRegions, CoveredAt,
      InSome, BackedBy, View, KernelHeap.Valid, Holds, Remembered, HoldsFrames, PagesApart, FrameBitmap.Used, UsedFrames,
      FrameRange, Reserved, MaxFrames, TotalMemory, PageTables.IsTable, ServedAll, FailsOnce, IsCallable, Runnable, Blocks.Run, CallsOfAll, Blocks.Slack, Blocks.TotalSlack,
      AddressSpace.Snapshot, AddressSpace.OutOfFrames, KernelHeap.Memory, KernelHeap.Backed, ScannedFrames, FrameBitmap.Valid;
    pointers, taken, gots := [], [], [];
    end := Initial(0);
    var ok, vm := Boot(info, records, kernelStart, kernelEnd, memory, directory, ram, entries);
    if !ok {
      NoneLeft(vm);
      return null, [], [], [], end;
    }
    ghost var used := vm.pmm.Used();
    FrameZeroUsed(vm);
    assert MAX_FRAMES == 0x2_0000;
    heap := new KernelHeap(vm);
    if !(HIGH_MEMORY_BASE < heap.firstBlock < VIDEO_VRT_ADDR) {
      NoneLow(vm, used);
      return null, [], [], [], end;
    }
    HoldsNothing(heap);
    assert State(heap.Now(), [], [], map[]) == Initial(heap.firstBlock);
    hide KernelHeap.Now, Initial;
    pointers, taken, gots, end := RunClient(heap, [], [], script, [], {});
    PagesAreApart(heap);
  }

  lemma NoneLeft(vm: AddressSpace)
    requires vm.OutOfFrames()
    ensures forall f: nat :: f < vm.pmm.maxFrames - vm.pmm.maxFrames % 32 ==> f in UsedFrames(vm.pmm.bitmap[..])
  {
    ScannedAreWholeWords(vm.pmm.maxFrames);
    forall f: nat | f < vm.pmm.maxFrames - vm.pmm.maxFrames % 32
      ensures f in UsedFrames(vm.pmm.bitmap[..])
    {
      assert f in FrameRange(0, ScannedFrames(vm.pmm.maxFrames)) by { assert Within(0, f, ScannedFrames(vm.pmm.maxFrames)); }
    }
  }

  /** init_heap took a frame that it cannot use, or none: all lower ones are in use. */
  lemma NoneLow(vm: AddressSpace, used: set<nat>)
    requires 0 in used
    requires var f := HeapFrame(used, vm.pmm.maxFrames); !(0 < f < MAX_FRAMES) && vm.pmm.Used() == used + {f}
    ensures forall f: nat :: f < 0x2_0000 && f < vm.pmm.maxFrames - vm.pmm.maxFrames % 32 ==> f in UsedFrames(vm.pmm.bitmap[..])
  {
    ScannedAreWholeWords(vm.pmm.maxFrames);
    var first := HeapFrame(used, vm.pmm.maxFrames);
    forall f: nat | f < 0x2_0000 && f < vm.pmm.maxFrames - vm.pmm.maxFrames % 32
      ensures f in UsedFrames(vm.pmm.bitmap[..])
    {
      if first == 0 {
        assert Within(0, f, ScannedFrames(vm.pmm.maxFrames));
        assert f in FrameRange(0, ScannedFrames(vm.pmm.maxFrames));
      } else {
        assert Within(0, f, first);
        assert f in FrameRange(0, first);
      }
    }
  }

  lemma HoldsNothing(heap: KernelHeap)
    requires heap.Valid() && |heap.frames| > 0
    ensures Holds(heap.blocks, [], [], {}) && HoldsFrames(heap.vm.Snapshot(), heap.frames, [])
  {
  }

  /** Each page of the heap has a frame of its own, in use and no page table. */
  ghost predicate PagesApart(heap: KernelHeap)
    reads heap, heap.vm.pmm.bitmap, heap.vm.directory, heap.vm.ram
  {
    && heap.vm.Valid() && |heap.frames| * PAGE_SIZE == heap.heapLimit - heap.firstBlock
    && (forall i, j :: 0 <= i < j < |heap.frames| ==> heap.frames[i] != heap.frames[j])
    && forall i :: 0 <= i < |heap.frames| ==>
         && heap.firstBlock + i * PAGE_SIZE < WORD_LIMIT
         && PageTables.Translate(heap.vm.Map(), heap.firstBlock + i * PAGE_SIZE) == heap.frames[i] * PAGE_SIZE
         && heap.frames[i] in heap.vm.pmm.Used()
         && !PageTables.IsTable(heap.vm.directory[..], heap.frames[i])
  }

  lemma PagesAreApart(heap: KernelHeap)
    requires heap.Valid()
    ensures PagesApart(heap) && heap.heapLimit <= 0xE000_0000
  {
    hide BackedBy, AddressSpace.Map, Linked, Blocks.Sound, View;
    forall i | 0 <= i < |heap.frames|
      ensures heap.firstBlock + i * PAGE_SIZE < WORD_LIMIT
      ensures PageTables.Translate(heap.vm.Map(), heap.firstBlock + i * PAGE_SIZE) == heap.frames[i] * PAGE_SIZE
      ensures heap.frames[i] in heap.vm.pmm.Used() && !PageTables.IsTable(heap.vm.directory[..], heap.frames[i])
    {
      heap.PagesAreBacked(i, i);
    }
    forall i, j | 0 <= i < j < |heap.frames|
      ensures heap.frames[i] != heap.frames[j]
    {
      heap.PagesAreBacked(i, j);
    }
    heap.MemoryDomain();
  }
}
