/**
 * kernel/mem/heap.cpp over the address space: every header is read and written at its virtual
 * address, through the page tables, in physical memory.
 */
module Heap {
  import opened Words
  import Pmm
  import PageTables
  import opened Vmm
  import opened Blocks
  import opened HeapMemory

  /** Where the framebuffer is mapped; the frames whose image lies below. */
  const VIDEO_VRT_ADDR := 0xE000_0000
  const MAX_FRAMES := (VIDEO_VRT_ADDR - HIGH_MEMORY_BASE) / PAGE_SIZE

  /** One page more, no frame left, or PANIC: no frame left for a page table. */
  datatype Growth = Grown | Exhausted | Halted

  lemma NoFrameTaken(vm: AddressSpace, frames: seq<nat>)
    requires vm.Valid()
    ensures Takes(vm.Snapshot(), vm.Snapshot(), FrameSet(frames))
    ensures SparesHeld(vm.Snapshot(), vm.Snapshot(), frames, frames)
    ensures vm.ram != vm.directory && vm.ram != vm.pmm.bitmap
  {
  }

  /** Where the image of a page-aligned frame address starts, as a sum of 32-bit words. */
  lemma ImageStart(page: Word)
    requires page % PAGE_SIZE == 0
    ensures 0 < page / PAGE_SIZE < MAX_FRAMES <==> HIGH_MEMORY_BASE < Low32(HIGH_MEMORY_BASE + page) < VIDEO_VRT_ADDR
    ensures page / PAGE_SIZE < MAX_FRAMES ==>
              && Low32(HIGH_MEMORY_BASE + page) == HIGH_MEMORY_BASE + page == 0xC000_0000 + 4096 * (page / PAGE_SIZE)
              && Low32(HIGH_MEMORY_BASE + page + PAGE_SIZE) == HIGH_MEMORY_BASE + page + PAGE_SIZE
    ensures page / PAGE_SIZE * PAGE_SIZE == page
  {
  }

  class KernelHeap {
    const vm: AddressSpace
    var firstBlock: Word
    var heapLimit: Word
    /** The frames behind the heap's pages, and the block list, as values. */
    ghost var frames: seq<nat>
    ghost var blocks: seq<Block>

    ghost predicate Backed()
      reads `firstBlock, `heapLimit, `frames, vm.pmm.bitmap, vm.directory, vm.ram
    {
      && vm.Valid()
      && BackedBy(vm.Snapshot(), vm.Map(), firstBlock, frames)
      && heapLimit == firstBlock + |frames| * PAGE_SIZE <= VIDEO_VRT_ADDR
    }

    /**
     * The heap may have so many pages more and stay below the framebuffer. With at most 512 MB of memory
     * it always stays there: it has no more pages than there are frames.
     */
    ghost predicate MayGrow(pages: nat)
      reads `heapLimit
    {
      heapLimit + pages * PAGE_SIZE <= VIDEO_VRT_ADDR || vm.pmm.maxFrames <= MAX_FRAMES
    }

    /** What kmalloc is asked for is nothing, or fits a free block, or fits below the framebuffer. */
    ghost predicate MayAllocate(n: Word)
      reads `heapLimit, `blocks
    {
      n == 0 || FirstFit(blocks, n) < |blocks| || MayGrow(NeededPages(n))
    }

    /** The heap's memory: its virtual word addresses and what is stored there. */
    ghost function Memory(): map<nat, Word>
      requires Backed()
      reads `firstBlock, `heapLimit, `frames, vm.pmm.bitmap, vm.directory, vm.ram
    {
      BackedIsPresent(vm.Snapshot(), vm.Map(), firstBlock, frames);
      View(vm.ram[..], frames, firstBlock)
    }

    ghost predicate Valid()
      reads this, vm.pmm.bitmap, vm.directory, vm.ram
    {
      && Backed()
      && Sound(Now(), firstBlock)
      && Linked(Memory(), blocks, 0)
    }

    ghost function Now(): List
      reads this
    {
      List(blocks, heapLimit)
    }

    /**
     * init_heap: the lowest free frame, at its image in high memory, becomes one free block. The image
     * must be mapped to it, as init_vmm leaves it. Without a frame, or with one whose image does not lie
     * below the framebuffer, the heap is not valid, and where it starts tells so.
     */
    constructor (vm: AddressSpace)
      requires vm.Valid()
      requires var f := Pmm.LowestFree(vm.pmm.Used(), Pmm.ScannedFrames(vm.pmm.maxFrames));
               0 < f < MAX_FRAMES ==>
                 HIGH_MEMORY_BASE / PAGE_SIZE + f in vm.Map() && vm.Map()[HIGH_MEMORY_BASE / PAGE_SIZE + f] == f
      modifies vm.pmm.bitmap, vm.ram
      ensures this.vm == vm
      ensures var f := Pmm.LowestFree(old(vm.pmm.Used()), Pmm.ScannedFrames(vm.pmm.maxFrames));
              && vm.pmm.Used() == old(vm.pmm.Used()) + {f} && firstBlock == Low32(HIGH_MEMORY_BASE + f * PAGE_SIZE)
              && (0 < f < MAX_FRAMES <==> HIGH_MEMORY_BASE < firstBlock < VIDEO_VRT_ADDR)
              && (0 < f < MAX_FRAMES ==>
                    && Valid() && frames == [f] && heapLimit == firstBlock + 4096
                    && firstBlock == 0xC000_0000 + 4096 * f && blocks == [Block(firstBlock, 4096 - 16, true)])
    {
      hide BackedBy, View, AddressSpace.Valid, AddressSpace.Map, Pmm.FrameBitmap.Used, Low32, Pmm.LowestFree, Pmm.ScannedFrames,
        Pmm.FrameRange, Linked, Sound, Takes, DataFrame, FrameSet, Memory;
      this.vm := vm;
      ghost var m := vm.Snapshot();
      var page := vm.AllocDataFrame();
      ImageStart(page);
      var heapStart := Low32(HIGH_MEMORY_BASE + page);
      firstBlock := heapStart;
      heapLimit := Low32(heapStart + PAGE_SIZE);
      frames := [page / PAGE_SIZE];
      blocks := [Block(heapStart, PAGE_SIZE - HEADER, true)];
      new;
      if HIGH_MEMORY_BASE < heapStart < VIDEO_VRT_ADDR {
        FirstPageBacked(m, vm.Map(), page / PAGE_SIZE);
        FormatFirstBlock();
      }
    }

    /** The stores of init_heap. */
    method FormatFirstBlock()
      requires Backed() && heapLimit == firstBlock + PAGE_SIZE
      requires blocks == [Block(firstBlock, PAGE_SIZE - HEADER, true)]
      modifies vm.ram
      ensures Valid()
    {
      hide Backed, Memory, Linked, Sound, Header;
      MemoryDomain();
      WriteHeader(firstBlock, PAGE_SIZE - HEADER, true, 0, 0);
      LinkedOne(Memory(), blocks[0], 0);
      OneFreePage(firstBlock);
    }

    /** The heap's addresses are the words from its first block to its limit; none is NULL, all precede the framebuffer. */
    lemma MemoryDomain()
      requires Backed()
      ensures forall a: nat :: a in Memory() <==> firstBlock <= a < heapLimit && a % 4 == 0
      ensures forall a: nat :: a in Memory() <==> InHeap(frames, firstBlock, a)
      ensures 0 < firstBlock < heapLimit <= VIDEO_VRT_ADDR
      ensures heapLimit <= HIGH_MEMORY_BASE + vm.pmm.maxFrames * PAGE_SIZE
      ensures firstBlock % PAGE_SIZE == 0 && heapLimit % PAGE_SIZE == 0
    {
      HeapFitsMemory(vm.Snapshot(), vm.Map(), firstBlock, frames, vm.pmm.maxFrames);
      BackedIsPresent(vm.Snapshot(), vm.Map(), firstBlock, frames);
      ViewDomain(vm.ram[..], frames, firstBlock);
    }

    lemma RoomForHeader(at: nat)
      requires Backed() && at % 4 == 0 && firstBlock <= at && at + HEADER <= heapLimit
      ensures at in Memory() && at + 4 in Memory() && at + 8 in Memory() && at + 12 in Memory()
    {
      MemoryDomain();
    }

    /** Stores the four fields of a header. */
    method WriteHeader(at: nat, size: Word, free: bool, next: Word, prev: Word)
      requires Backed() && at in Memory() && at + 4 in Memory() && at + 8 in Memory() && at + 12 in Memory()
      modifies vm.ram
      ensures Backed() && Header(Memory(), Block(at, size, free), next)
      ensures SameOutside(old(Memory()), Memory(), at, at + HEADER) && Memory().Keys == old(Memory()).Keys
    {
      hide Backed, Memory;
      HeaderWritten(Memory(), Block(at, size, free), WithFlag(Memory()[at + 4], free), next, prev);
      Store(at, size);
      SetFree(at, free);
      Store(at + 8, next);
      Store(at + 12, prev);
    }

    /** `block->is_free = free`: a store of one byte. */
    method SetFree(at: nat, free: bool)
      requires Backed() && at + 4 in Memory()
      modifies vm.ram
      ensures Backed()
      ensures Memory() == old(Memory())[at + 4 := WithFlag(old(Memory())[at + 4], free)]
    {
      hide Backed, Memory;
      var w := Load(at + 4);
      Store(at + 4, WithFlag(w, free));
    }

    /** Where the page tables place a heap address in physical memory. */
    method Locate(a: nat) returns (cell: nat)
      requires Backed() && a in Memory()
      ensures InHeap(frames, firstBlock, a) && cell == CellOf(frames, firstBlock, a) && cell < vm.ram.Length
    {
      MemoryDomain();
      var physical := vm.GetPhysicalAddress(a);
      BackedIsPresent(vm.Snapshot(), vm.Map(), firstBlock, frames);
      TranslateFindsCell(vm.Map(), firstBlock, frames, a);
      CellInside(vm.ram[..], frames, firstBlock, a);
      cell := physical / 4;
    }

    method Load(a: nat) returns (w: Word)
      requires Backed() && a in Memory()
      ensures w == Memory()[a]
    {
      var cell := Locate(a);
      w := vm.ram[cell];
    }

    method Store(a: nat, w: Word)
      requires Backed() && a in Memory()
      modifies vm.ram
      ensures Backed() && Memory() == old(Memory())[a := w]
    {
      hide AddressSpace.Valid, AddressSpace.Map, BackedBy, View;
      MemoryDomain();
      BackedIsPresent(vm.Snapshot(), vm.Map(), firstBlock, frames);
      var cell := Locate(a);
      StoreLaws(vm.Snapshot(), vm.Map(), firstBlock, frames, a, w);
      ghost var f, i := frames[(a - firstBlock) / PAGE_SIZE], (a - firstBlock) % PAGE_SIZE / 4;
      assert f in frames;
      vm.PutData(cell, w, f, i);
    }

    /** One round of the loop in expand_heap. */
    method GrowPage() returns (growth: Growth)
      requires Backed() && MayGrow(1)
      modifies this`heapLimit, this`frames, vm.pmm.bitmap, vm.directory, vm.ram
      ensures Backed() && Extends(old(Memory()), Memory())
      ensures var f := Pmm.LowestFree(old(vm.pmm.Used()), Pmm.ScannedFrames(vm.pmm.maxFrames));
              match growth
              case Grown => f != 0 && frames == old(frames) + [f] && heapLimit == old(heapLimit) + PAGE_SIZE
              case Exhausted => f == 0 && frames == old(frames) && heapLimit == old(heapLimit)
              case Halted => frames == old(frames) && heapLimit == old(heapLimit)
      ensures growth != Grown ==> vm.OutOfFrames()
      ensures growth != Halted ==> Takes(old(vm.Snapshot()), vm.Snapshot(), FrameSet(frames))
      ensures SparesHeld(old(vm.Snapshot()), vm.Snapshot(), old(frames), frames)
    {
      hide BackedBy, View, AddressSpace.Valid, AddressSpace.Map, Pmm.FrameBitmap.Used, Keeps, Takes, SparesHeld, DataFrame;
      ghost var m, mapping := vm.Snapshot(), vm.Map();
      MemoryDomain();
      var page := vm.AllocDataFrame();
      ghost var f := page / PAGE_SIZE;
      ghost var m' := vm.Snapshot();
      MoreUsedKeeps(m, f);
      if page == 0 {
        NothingTaken(m, m', frames);
        KeepsSparesHeld(m, m', frames);
        BackingKept(m, mapping, firstBlock, frames, m', mapping);
        return Exhausted;
      }
      var ok := vm.MapPage(heapLimit, page);
      if !ok {
        KeepsIsTransitive(m, m', vm.Snapshot());
        KeepsSparesHeld(m, vm.Snapshot(), frames);
        BackingKept(m, mapping, firstBlock, frames, vm.Snapshot(), mapping);
        return Halted;
      }
      BackingGrows(m, mapping, firstBlock, frames, f, vm.Snapshot());
      PageTaken(m, m', vm.Snapshot(), frames, f);
      KeepsIsTransitive(m, m', vm.Snapshot());
      KeepsSparesHeld(m, vm.Snapshot(), frames);
      frames := frames + [f];
      HeapFitsMemory(vm.Snapshot(), vm.Map(), firstBlock, frames, vm.pmm.maxFrames);
      heapLimit := heapLimit + PAGE_SIZE;
      growth := Grown;
    }

    /** The loop of expand_heap: `got` is how many of the pages could be had. */
    method GrowPages(pages: nat) returns (growth: Growth, ghost got: nat)
      requires Backed() && MayGrow(pages)
      modifies this`heapLimit, this`frames, vm.pmm.bitmap, vm.directory, vm.ram
      ensures Backed() && Extends(old(Memory()), Memory())
      ensures heapLimit == old(heapLimit) + got * PAGE_SIZE && got <= pages
      ensures growth == Grown <==> got == pages
      ensures growth != Grown ==> vm.OutOfFrames()
      ensures growth != Halted ==> Takes(old(vm.Snapshot()), vm.Snapshot(), FrameSet(frames))
      ensures SparesHeld(old(vm.Snapshot()), vm.Snapshot(), old(frames), frames)
    {
      hide BackedBy, Memory, Extends, Takes, SparesHeld, AddressSpace.Valid;
      ExtendsItself(Memory());
      ghost var start := vm.Snapshot();
      NoFrameTaken(vm, frames);
      got := 0;
      for i := 0 to pages
        invariant Backed() && Extends(old(Memory()), Memory())
        invariant got == i && heapLimit == old(heapLimit) + got * PAGE_SIZE && MayGrow(pages - i)
        invariant Takes(start, vm.Snapshot(), FrameSet(frames)) && SparesHeld(start, vm.Snapshot(), old(frames), frames)
      {
        ghost var before, taken, pagesBefore := Memory(), vm.Snapshot(), frames;
        growth := GrowPage();
        ExtendsFurther(old(Memory()), before, Memory());
        SparesHeldThen(start, taken, vm.Snapshot(), old(frames), pagesBefore, frames);
        if growth != Halted {
          PagesTaken(start, taken, vm.Snapshot(), pagesBefore, frames);
        }
        if growth != Grown {
          return;
        }
        got := got + 1;
      }
      growth := Grown;
    }

    /** The stores of expand_heap, once its pages are mapped at `at`. */
    method AppendBlocks(at: Word, n: Word, last: Word)
      requires Backed() && Expandable(n) && n % 4 == 0 && at % 4 == 0
      requires last % 4 == 0 && firstBlock <= last && last + HEADER <= at && at + NeededPages(n) * PAGE_SIZE <= heapLimit
      modifies vm.ram
      ensures Backed() && Memory().Keys == old(Memory()).Keys
      ensures Appended(old(Memory()), Memory(), last, at) && last + 8 in Memory() && Memory()[last + 8] == at
      ensures Linked(Memory(), Fresh(at, n), 0)
    {
      hide Backed, Memory, Linked, Header, Appended, SameOutside;
      PagesHoldBlockIff(n);
      RoomForHeader(at);
      RoomForHeader(last);
      ghost var v := Memory();
      WriteHeader(at, n, false, 0, last);
      AppendWritten(v, Memory(), at, n, last);
      Store(last + 8, at);
      var remaining := NeededPages(n) * PAGE_SIZE - (n + HEADER);
      if remaining > HEADER + 4 {
        ghost var w := Memory();
        AppendTail(at, n, remaining);
        AppendedThen(v, w, Memory(), last, at, at + HEADER + n + HEADER);
      }
      FreshLinked(Memory(), at, n);
    }

    /** The free block behind the new block. */
    method AppendTail(at: Word, n: Word, remaining: Word)
      requires Backed() && n % 4 == 0 && at % 4 == 0
      requires remaining > HEADER + 4 && firstBlock <= at && at + HEADER + n + remaining <= heapLimit
      requires Header(Memory(), Block(at, n, false), 0)
      modifies vm.ram
      ensures Backed() && Memory().Keys == old(Memory()).Keys
      ensures SameOutside(old(Memory()), Memory(), at, at + HEADER + n + HEADER)
      ensures Header(Memory(), Block(at, n, false), at + HEADER + n)
      ensures Header(Memory(), Block(at + HEADER + n, remaining - HEADER, true), 0)
    {
      hide Backed, Memory, Header, SameOutside;
      var tail := at + HEADER + n;
      RoomForHeader(at);
      RoomForHeader(tail);
      ghost var v := Memory();
      WriteHeader(tail, remaining - HEADER, true, 0, at);
      TailWritten(v, Memory(), at, n, remaining - HEADER);
      Store(at + 8, tail);
    }

    /** The branch of kmalloc that uses the free block at `at`, of `size` bytes, for n bytes. */
    method TakeBlock(at: Word, size: Word, n: Word, ghost i: nat)
      requires Valid() && i < |blocks| && Fits(blocks[i], n) && n % 4 == 0
      requires at == blocks[i].at && size == blocks[i].size
      modifies this`blocks, vm.ram
      ensures Valid() && blocks == Take(old(blocks), i, n)
      ensures KeepsPayloads(old(Memory()), Memory(), old(blocks))
    {
      hide Backed, Memory, Linked, Shape, Coalesced, KeepsPayloads, Split, Take;
      MemoryDomain();
      SoundParts(Now(), firstBlock);
      BlockIn(blocks, firstBlock, heapLimit, i);
      LinkedAround(Memory(), blocks, i, 0);
      ghost var next := First(blocks[i + 1..], 0);
      SplitBlock(at, size, n, next);
      SplitLinked(Memory(), blocks[i], n, next);
      TakeLinked(old(Memory()), Memory(), blocks, firstBlock, heapLimit, i, n);
      TakeShape(blocks, firstBlock, heapLimit, i, n);
      TakeCoalesced(blocks, i, n);
      blocks := Take(blocks, i, n);
    }

    method SplitBlock(at: Word, size: Word, n: Word, ghost next: nat)
      requires Backed() && n <= size && n % 4 == 0 && size % 4 == 0 && at % 4 == 0
      requires firstBlock <= at && at + HEADER + size <= heapLimit
      requires Header(Memory(), Block(at, size, true), next)
      modifies vm.ram
      ensures Backed() && SameOutside(old(Memory()), Memory(), at, at + HEADER + size)
      ensures var x := Split(Block(at, size, true), n);
              if |x| == 1 then Header(Memory(), x[0], next)
              else Header(Memory(), x[0], x[1].at) && Header(Memory(), x[1], next)
    {
      hide Backed, Memory;
      SetFree(at, false);
      if size - n >= HEADER + 4 {
        SplitOff(at, size, n, next);
      }
    }

    /** The stores that cut a block of `size` bytes down to n and make the rest a free block. */
    method SplitOff(at: Word, size: Word, n: Word, ghost next: nat)
      requires Backed() && n + HEADER + 4 <= size && n % 4 == 0 && size % 4 == 0 && at % 4 == 0
      requires firstBlock <= at && at + HEADER + size <= heapLimit
      requires Header(Memory(), Block(at, size, false), next)
      modifies vm.ram
      ensures Backed() && SameOutside(old(Memory()), Memory(), at, at + HEADER + size)
      ensures Header(Memory(), Block(at, n, false), at + HEADER + n)
      ensures Header(Memory(), Block(at + HEADER + n, size - n - HEADER, true), next)
    {
      hide Backed, Memory, Header, SameOutside;
      var rest := at + HEADER + n;
      RoomForHeader(at);
      RoomForHeader(rest);
      ghost var v := Memory();
      Store(at, n);
      var nextBlock := Load(at + 8);
      NextField(v, Block(at, size, false), next);
      WriteHeader(rest, size - n - HEADER, true, nextBlock, at);
      SplitWritten(v, Memory(), at, size, n, next);
      Store(at + 8, rest);
    }

    /** expand_heap. When pages run out half-way, the limit stays where it got. */
    method ExpandHeap(n: Word, last: Word) returns (block: Word, growth: Growth, ghost got: nat)
      requires Valid() && Expandable(n) && n % 4 == 0 && last == blocks[|blocks| - 1].at
      requires MayGrow(NeededPages(n))
      modifies this`heapLimit, this`frames, this`blocks, vm.pmm.bitmap, vm.directory, vm.ram
      ensures Valid()
      ensures KeepsPayloads(old(Memory()), Memory(), old(blocks))
      ensures growth == Grown <==> got == NeededPages(n)
      ensures got <= NeededPages(n) && heapLimit == old(heapLimit) + got * PAGE_SIZE
      ensures blocks == if growth == Grown then Grow(old(blocks), old(heapLimit), n) else old(blocks)
      ensures block == if growth == Grown then old(heapLimit) else 0
      ensures growth != Grown ==> vm.OutOfFrames()
      ensures growth != Halted ==> Takes(old(vm.Snapshot()), vm.Snapshot(), FrameSet(frames))
      ensures SparesHeld(old(vm.Snapshot()), vm.Snapshot(), old(frames), frames)
    {
      hide Takes, SparesHeld, BackedBy, AddressSpace.Valid, Memory, Linked, Shape, Coalesced, KeepsPayloads, Extends, Grow, NeededPages, Appended;
      ghost var v, limit := Memory(), heapLimit;
      SoundParts(Now(), firstBlock);
      BlockIn(blocks, firstBlock, heapLimit, |blocks| - 1);
      var at := heapLimit;
      growth, got := GrowPages(NeededPages(n));
      if growth != Grown {
        ExtendsFrame(v, Memory(), blocks);
        ShapeWidens(blocks, firstBlock, limit, heapLimit);
        LimitStaysAligned(limit, got);
        return 0, growth, got;
      }
      ghost var grown, taken := Memory(), vm.Snapshot();
      NoFrameTaken(vm, frames);
      AppendBlocks(at, n, last);
      TakesDespiteStores(old(vm.Snapshot()), taken, vm.Snapshot(), FrameSet(frames));
      SparesHeldDespiteStores(old(vm.Snapshot()), taken, vm.Snapshot(), old(frames), frames);
      assert blocks == blocks[..|blocks| - 1] + [blocks[|blocks| - 1]];
      ExpandLinked(v, grown, Memory(), blocks[..|blocks| - 1], blocks[|blocks| - 1], firstBlock, limit, n);
      GrowShape(blocks, firstBlock, limit, n);
      GrowCoalesced(blocks, limit, n);
      LimitStaysAligned(limit, got);
      blocks := Grow(blocks, limit, n);
      block := at;
    }

    /** The loop of kmalloc: the first fitting block, or NULL and the last block of the list. */
    method FindFit(n: Word) returns (current: Word, last: Word, available: Word)
      requires Valid()
      ensures var i := FirstFit(blocks, n);
              if i < |blocks| then current == blocks[i].at && available == blocks[i].size
              else current == 0 && last == blocks[|blocks| - 1].at
    {
      hide Backed, Memory, Sound, Fits, FirstFit, Shape, Header, Linked;
      MemoryDomain();
      SoundParts(Now(), firstBlock);
      current, last, available := firstBlock, firstBlock, 0;
      FirstOf(blocks, firstBlock, heapLimit);
      ghost var done, ahead: seq<Block> := [], blocks;
      while current != 0
        invariant done + ahead == blocks && current == First(ahead, 0)
        invariant forall b <- done :: !Fits(b, n)
        invariant done != [] ==> last == done[|done| - 1].at
        decreases |ahead|
      {
        var fits;
        fits, available := Examine(current, n, done, ahead);
        if fits {
          FirstFitIs(done, ahead, n);
          return;
        }
        last := current;
        current := NextBlock(current, done, ahead);
        Advance(done, ahead);
        done, ahead := done + [ahead[0]], ahead[1..];
      }
      NoneAhead(ahead, blocks, done, firstBlock, heapLimit);
      FirstFitIs(done, [], n);
      assert done + [] == blocks;
    }

    /** `current_block->is_free && current_block->size >= size` */
    method Examine(current: Word, n: Word, ghost done: seq<Block>, ghost ahead: seq<Block>) returns (fits: bool, available: Word)
      requires Backed() && Shape(blocks, firstBlock, heapLimit) && Linked(Memory(), blocks, 0)
      requires blocks == done + ahead && ahead != [] && current == ahead[0].at
      ensures fits == Fits(ahead[0], n) && available == ahead[0].size
    {
      hide Backed, Memory, Linked, Shape, Header;
      LinkedAppend(Memory(), done, ahead, 0);
      HeadOf(Memory(), done, ahead, firstBlock, heapLimit);
      HeaderFields(Memory(), ahead[0], First(ahead[1..], 0));
      var free := Load(current + 4);
      available := Load(current);
      fits := Flag(free) && available >= n;
    }

    /** kmalloc. `got` is how many pages an expansion could have; `halted` stands for PANIC in map_page. */
    method Kmalloc(size: Word) returns (p: Word, halted: bool, ghost got: nat)
      requires Valid() && Expandable(Round4(size)) && MayAllocate(Round4(size))
      modifies this`heapLimit, this`frames, this`blocks, vm.pmm.bitmap, vm.directory, vm.ram
      ensures Valid()
      ensures Now() == Step(old(Now()), Malloc(size, got))
      ensures var grant := Granted(old(Now()), size, got);
              p == if grant == [] then 0 else grant[0].Payload()
      ensures KeepsPayloads(old(Memory()), Memory(), old(blocks))
      ensures halted || (p == 0 && Round4(size) != 0) ==> p == 0 && vm.OutOfFrames()
      ensures !halted ==> Takes(old(vm.Snapshot()), vm.Snapshot(), FrameSet(frames))
      ensures SparesHeld(old(vm.Snapshot()), vm.Snapshot(), old(frames), frames)
    {
      hide Takes, SparesHeld, BackedBy, AddressSpace.Valid, Memory, Linked, Sound, KeepsPayloads, Round4, Grow, Take, NeededPages, FirstFit;
      var n := Round4(size);
      got, halted := 0, false;
      PayloadsStay(Memory(), blocks);
      NoFrameTaken(vm, frames);
      if n == 0 {
        return 0, false, got;
      }
      SoundParts(Now(), firstBlock);
      MemoryDomain();
      var current, last, available := FindFit(n);
      if current != 0 {
        ghost var i := FirstFit(blocks, n);
        BlockIn(blocks, firstBlock, heapLimit, i);
        TakenAt(blocks[i], n);
        TakeBlock(current, available, n, i);
        TakesDespiteStores(old(vm.Snapshot()), old(vm.Snapshot()), vm.Snapshot(), FrameSet(frames));
        SparesHeldDespiteStores(old(vm.Snapshot()), old(vm.Snapshot()), vm.Snapshot(), frames, frames);
        return current + HEADER, false, got;
      }
      var block, growth;
      block, growth, got := ExpandHeap(n, last);
      if block == 0 {
        return 0, growth == Halted, got;
      }
      p := block + HEADER;
    }

    /** The stores of one merge: size and next of the first block, then prev of the block behind both. */
    method MergeNext(current: Word, next: Word, ghost done: seq<Block>, ghost a: Block, ghost b: Block, ghost rest: seq<Block>)
      requires Backed() && Shape(blocks, firstBlock, heapLimit) && Linked(Memory(), blocks, 0)
      requires blocks == done + [a, b] + rest && a.free && b.free && current == a.at && next == b.at
      modifies this`blocks, vm.ram
      ensures Backed() && blocks == done + [Merge(a, b)] + rest
      ensures Linked(Memory(), blocks, 0) && Shape(blocks, firstBlock, heapLimit)
      ensures KeepsPayloads(old(Memory()), Memory(), old(blocks))
    {
      hide Backed, Memory, Linked, Shape, KeepsPayloads, Merge;
      var after := MergeHeaders(current, next, done, a, b, rest);
      ghost var w := Memory();
      FixPrev(current, after, done, Merge(a, b), rest);
      KeepsThrough(old(Memory()), w, Memory(), done, a, b, rest);
    }

    method MergeHeaders(current: Word, next: Word, ghost done: seq<Block>, ghost a: Block, ghost b: Block, ghost rest: seq<Block>)
      returns (after: Word)
      requires Backed() && Shape(blocks, firstBlock, heapLimit) && Linked(Memory(), blocks, 0)
      requires blocks == done + [a, b] + rest && a.free && b.free && current == a.at && next == b.at
      modifies this`blocks, vm.ram
      ensures Backed() && blocks == done + [Merge(a, b)] + rest && after == First(rest, 0)
      ensures Linked(Memory(), blocks, 0) && Shape(blocks, firstBlock, heapLimit)
      ensures KeepsPayloads(old(Memory()), Memory(), old(blocks))
    {
      hide Backed, Memory, Linked, Shape, KeepsPayloads, Header, SameOutside, Chain;
      ghost var v := Memory();
      MemoryDomain();
      TwoHeaders(v, done, a, b, rest, firstBlock, heapLimit);
      after := StoreMerge(current, next);
      MergeWritten(v, a, b, after);
      MergeLinked(v, Memory(), done, a, b, rest, firstBlock, heapLimit);
      MergeShape(done, a, b, rest, firstBlock, heapLimit);
      blocks := done + [Merge(a, b)] + rest;
    }

    /** `current_block->size += ...; current_block->next = current_block->next->next` */
    method StoreMerge(current: Word, next: Word) returns (after: Word)
      requires Backed() && current in Memory() && current + 8 in Memory() && next in Memory() && next + 8 in Memory()
      requires current < next && Memory()[current] + (Memory()[next] + HEADER) < WORD_LIMIT
      modifies vm.ram
      ensures Backed() && after == old(Memory())[next + 8]
      ensures var v := old(Memory()); Memory() == v[current := v[current] + (v[next] + HEADER)][current + 8 := after]
    {
      hide Backed, Memory;
      MemoryDomain();
      var size := Load(current);
      var more := Load(next);
      Store(current, size + (more + HEADER));
      after := Load(next + 8);
      Store(current + 8, after);
    }

    /** `if (next != NULL) next->prev = current` */
    method FixPrev(current: Word, after: Word, ghost done: seq<Block>, ghost b: Block, ghost rest: seq<Block>)
      requires Backed() && Shape(blocks, firstBlock, heapLimit) && Linked(Memory(), blocks, 0)
      requires blocks == done + [b] + rest && after == First(rest, 0)
      modifies vm.ram
      ensures Backed() && Linked(Memory(), blocks, 0)
      ensures KeepsPayloads(old(Memory()), Memory(), blocks)
    {
      hide Backed, Memory, Linked, Shape, KeepsPayloads;
      PayloadsStay(Memory(), blocks);
      if after != 0 {
        NextHeader(Memory(), done, b, rest, firstBlock, heapLimit);
        PrevStoreKeepsList(Memory(), blocks, firstBlock, heapLimit, |done| + 1, current);
        Store(after + 12, current);
      }
    }

    /** coalesce_free_blocks */
    method CoalesceFreeBlocks()
      requires Backed() && Shape(blocks, firstBlock, heapLimit) && Linked(Memory(), blocks, 0)
      modifies this`blocks, vm.ram
      ensures Backed() && blocks == Coalesce(old(blocks))
      ensures Linked(Memory(), blocks, 0)
      ensures KeepsPayloads(old(Memory()), Memory(), old(blocks))
    {
      hide Backed, Memory, Linked, Shape, KeepsPayloads, Header, InUse, Coalesce, Merge;
      MemoryDomain();
      FirstOf(blocks, firstBlock, heapLimit);
      PayloadsStay(Memory(), blocks);
      ghost var v, start := Memory(), blocks;
      ghost var done, ahead: seq<Block> := [], blocks;
      var current := firstBlock;
      assert done + ahead == blocks && [] + Coalesce(start) == Coalesce(start);
      var next := NextBlock(current, done, ahead);
      while next != 0
        invariant Backed() && Shape(blocks, firstBlock, heapLimit) && Linked(Memory(), blocks, 0)
        invariant blocks == done + ahead && ahead != []
        invariant current == ahead[0].at && next == First(ahead[1..], 0)
        invariant done + Coalesce(ahead) == Coalesce(start)
        invariant InUse(blocks) == InUse(start) && KeepsPayloads(v, Memory(), start)
        decreases |ahead|
      {
        ghost var a, b, rest := ahead[0], ahead[1], ahead[2..];
        AheadParts(done, ahead);
        var merge := BothFree(current, next, done, a, b, rest);
        if merge {
          ghost var w := Memory();
          MergeNext(current, next, done, a, b, rest);
          KeepsInUse(v, w, Memory(), start, done + [a, b] + rest);
          CoalesceMerges(done, a, b, rest);
          ahead := [Merge(a, b)] + rest;
        } else {
          CoalesceAdvances(done, ahead);
          current := next;
          done, ahead := done + [a], ahead[1..];
        }
        next := NextBlock(current, done, ahead);
      }
      CoalesceEnds(ahead, start, firstBlock, heapLimit, done);
    }

    /** `current_block->next` */
    method NextBlock(current: Word, ghost done: seq<Block>, ghost ahead: seq<Block>) returns (next: Word)
      requires Backed() && Shape(blocks, firstBlock, heapLimit) && Linked(Memory(), blocks, 0)
      requires blocks == done + ahead && ahead != [] && current == ahead[0].at
      ensures next == First(ahead[1..], 0)
    {
      hide Backed, Memory, Linked, Shape, Header;
      LinkedAppend(Memory(), done, ahead, 0);
      HeadOf(Memory(), done, ahead, firstBlock, heapLimit);
      HeaderFields(Memory(), ahead[0], First(ahead[1..], 0));
      next := Load(current + 8);
    }

    method BothFree(current: Word, next: Word, ghost done: seq<Block>, ghost a: Block, ghost b: Block, ghost rest: seq<Block>)
      returns (free: bool)
      requires Backed() && Shape(blocks, firstBlock, heapLimit) && Linked(Memory(), blocks, 0)
      requires blocks == done + [a, b] + rest && current == a.at && next == b.at
      ensures free == (a.free && b.free)
    {
      hide Backed, Memory, Linked, Shape, Header;
      TwoHeaders(Memory(), done, a, b, rest, firstBlock, heapLimit);
      var first := Load(current + 4);
      var second := Load(next + 4);
      free := Flag(first) && Flag(second);
    }

    /** A pointer that kmalloc returned and kfree has not taken back. */
    ghost predicate Live(p: nat)
      reads `blocks
    {
      exists b <- blocks :: !b.free && b.Payload() == p
    }

    /** kfree of a live pointer */
    method Kfree(p: Word)
      requires Valid() && Live(p)
      modifies this`blocks, vm.ram
      ensures Valid() && Now() == Step(old(Now()), Free(p - HEADER))
      ensures KeepsPayloads(old(Memory()), Memory(), Mark(old(blocks), p - HEADER))
    {
      hide Backed, Memory, Linked, Shape, Coalesced, KeepsPayloads, Mark, Coalesce, InUse;
      SoundParts(Now(), firstBlock);
      ghost var v, bs, i := Memory(), blocks, IndexOf(blocks, p);
      ghost var before, b, behind := bs[..i], bs[i], bs[i + 1..];
      assert bs == before + [b] + behind;
      BlockIn(blocks, firstBlock, heapLimit, i);
      LinkedAround(v, bs, i, 0);
      HeaderFields(v, b, First(behind, 0));
      var block := p - HEADER;
      MarkLinked(v, WithFlag(v[b.at + 4], true), before, b, behind, firstBlock, heapLimit);
      MarkShapeToo(bs, firstBlock, heapLimit, b.at);
      SetFree(block, true);
      blocks := Mark(blocks, block);
      ghost var w, marked := Memory(), blocks;
      CoalesceShape(blocks, firstBlock, heapLimit);
      CoalesceFreeBlocks();
      MarkedThrough(v, w, Memory(), bs, b.at);
    }

    /** A store by the owner of a block, within its payload. */
    method StorePayload(p: Word, a: Word, w: Word, ghost b: Block)
      requires Valid() && b in blocks && !b.free && b.Payload() == p
      requires p <= a < b.End() && a % 4 == 0
      modifies vm.ram
      ensures Valid() && blocks == old(blocks)
      ensures Memory() == old(Memory())[a := w]
      ensures forall c <- blocks :: c != b && !c.free ==> SamePayload(old(Memory()), Memory(), c)
    {
      hide Backed, Memory, Linked, Coalesced;
      MemoryDomain();
      SoundParts(Now(), firstBlock);
      BlocksApart(blocks, firstBlock, heapLimit, b);
      PayloadStoreKeepsList(Memory(), blocks, firstBlock, heapLimit, b, a, w);
      Store(a, w);
    }

    /** map_page by other code, for a page that is not the heap's to grow into. */
    method MapElsewhere(virtualAddress: Word, physicalAddress: Word) returns (ok: bool)
      requires Valid()
      requires virtualAddress < firstBlock || VIDEO_VRT_ADDR <= virtualAddress
      modifies vm.pmm.bitmap, vm.directory, vm.ram
      ensures Valid() && Memory() == old(Memory())
      ensures vm.Map() == if ok then old(vm.Map())[virtualAddress / PAGE_SIZE := physicalAddress / PAGE_SIZE] else old(vm.Map())
      ensures Keeps(old(vm.Snapshot()), vm.Snapshot()) && (!ok ==> vm.OutOfFrames())
    {
      hide BackedBy, View, AddressSpace.Valid, AddressSpace.Map, Keeps, DataFrame, Linked, Sound;
      ghost var m, mapping := vm.Snapshot(), vm.Map();
      MemoryDomain();
      ok := vm.MapPage(virtualAddress, physicalAddress);
      BackingKept(m, mapping, firstBlock, frames, vm.Snapshot(), vm.Map());
    }

    /** pmm_alloc_page by other code: a frame above the heap's first one, and none of the heap's; or 0. */
    method TakeFrame() returns (addr: Word)
      requires Valid()
      modifies vm.pmm.bitmap
      ensures Valid() && Memory() == old(Memory())
      ensures addr % PAGE_SIZE == 0 && (addr == 0 ==> vm.OutOfFrames())
      ensures var f := addr / PAGE_SIZE;
              && vm.Snapshot() == old(vm.Snapshot()).(used := old(vm.pmm.Used()) + {f})
              && (addr != 0 ==>
                    f !in old(vm.pmm.Used()) && DataFrame(vm.Snapshot(), f) && f !in frames && frames[0] < f)
    {
      hide BackedBy, View, AddressSpace.Valid, AddressSpace.Map, Keeps, DataFrame, Linked, Sound;
      ghost var m, mapping := vm.Snapshot(), vm.Map();
      addr := vm.AllocDataFrame();
      assert addr == addr / PAGE_SIZE * PAGE_SIZE;
      MoreUsedKeeps(m, addr / PAGE_SIZE);
      BackingKept(m, mapping, firstBlock, frames, vm.Snapshot(), mapping);
      if addr != 0 {
        FreeIsElsewhere(m, mapping, firstBlock, frames, addr / PAGE_SIZE);
      }
    }

    /** pmm_free_page by other code, for a frame that it took. */
    method GiveFrame(addr: Word)
      requires Valid() && addr != 0 && addr % PAGE_SIZE == 0 && DataFrame(vm.Snapshot(), addr / PAGE_SIZE)
      requires addr / PAGE_SIZE !in frames && frames[0] < addr / PAGE_SIZE
      modifies vm.pmm.bitmap
      ensures Valid() && Memory() == old(Memory())
      ensures vm.Snapshot() == old(vm.Snapshot()).(used := old(vm.pmm.Used()) - {addr / PAGE_SIZE})
    {
      hide BackedBy, View, AddressSpace.Valid, AddressSpace.Map, DataFrame, Linked, Sound;
      BackedIsPresent(vm.Snapshot(), vm.Map(), firstBlock, frames);
      BackingReleased(vm.Snapshot(), vm.Map(), firstBlock, frames, addr / PAGE_SIZE);
      vm.FreeDataFrame(addr);
    }

    /**
     * Every page of the heap is translated to its own frame; the frames are pairwise distinct, in use,
     * and none of them holds a page table.
     */
    lemma PagesAreBacked(i: nat, j: nat)
      requires Backed() && i < |frames| && j < |frames|
      ensures |frames| * PAGE_SIZE == heapLimit - firstBlock
      ensures firstBlock + i * PAGE_SIZE < WORD_LIMIT
      ensures PageTables.Translate(vm.Map(), firstBlock + i * PAGE_SIZE) == frames[i] * PAGE_SIZE
      ensures frames[i] in vm.pmm.Used() && !PageTables.IsTable(vm.directory[..], frames[i])
      ensures i != j ==> frames[i] != frames[j]
    {
      MemoryDomain();
      BackedIsPresent(vm.Snapshot(), vm.Map(), firstBlock, frames);
      assert frames[i] in frames && DataFrame(vm.Snapshot(), frames[i]);
      assert PageMapped(vm.Map(), firstBlock, frames, i);
      assert (firstBlock + i * PAGE_SIZE) / PAGE_SIZE == firstBlock / PAGE_SIZE + i;
    }
  }
}
