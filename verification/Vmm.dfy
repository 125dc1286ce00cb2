/**
 * kernel/mem/vmm.cpp: the page directory, the tables in physical memory, and the frame allocator
 * that the tables come from. A method that the kernel would leave through PANIC returns false and
 * makes no further step.
 */
module Vmm {
  import opened Words
  import opened Multiboot
  import Pmm
  import opened PageTables

  const HIGH_MEMORY_BASE := 0xC000_0000
  const FOUR_MEGABYTES := 0x40_0000
  const VGA_MEMORY := 0xB_8000

  /** The used frames, the directory and physical memory at one moment. */
  datatype Memory = Memory(used: set<nat>, dir: seq<Word>, ram: seq<Word>)

  /** A used frame that holds no table: what it contains is data. */
  ghost predicate DataFrame(m: Memory, frame: nat) {
    && frame in m.used && (frame + 1) * ENTRIES <= |m.ram|
    && |m.dir| == ENTRIES && !IsTable(m.dir, frame)
  }

  predicate SameContents(m: Memory, n: Memory, frame: nat)
    requires (frame + 1) * ENTRIES <= |m.ram| <= |n.ram|
  {
    m.ram[frame * ENTRIES..(frame + 1) * ENTRIES] == n.ram[frame * ENTRIES..(frame + 1) * ENTRIES]
  }

  /** Used frames stay used, and the data frames among them stay data and keep their contents. */
  ghost predicate Keeps(m: Memory, n: Memory) {
    && m.used <= n.used && |m.ram| == |n.ram|
    && forall frame: nat :: DataFrame(m, frame) ==> DataFrame(n, frame) && SameContents(m, n, frame)
  }

  lemma KeepsIsTransitive(a: Memory, b: Memory, c: Memory)
    requires Keeps(a, b) && Keeps(b, c)
    ensures Keeps(a, c)
  {
  }

  /**
   * Every frame newly in use is one of `frames` or holds a page table; what held a table still does, and what
   * newly holds one was free.
   */
  ghost predicate Takes(m: Memory, n: Memory, frames: set<nat>) {
    && |m.dir| == ENTRIES == |n.dir| && m.used <= n.used
    && (forall f: nat :: IsTable(n.dir, f) ==> IsTable(m.dir, f) || f !in m.used)
    && (forall f: nat :: f in n.used && f !in m.used ==> f in frames || IsTable(n.dir, f))
    && (forall f: nat :: IsTable(m.dir, f) ==> IsTable(n.dir, f))
  }

  lemma TakesThen(a: Memory, b: Memory, c: Memory, first: set<nat>, both: set<nat>)
    requires Takes(a, b, first) && Takes(b, c, both) && first <= both
    ensures Takes(a, c, both)
  {
  }

  /** What page-table changes may do to memory. */
  ghost predicate OnlyMaps(m: Memory, n: Memory) {
    Keeps(m, n) && Takes(m, n, {})
  }

  lemma OnlyMapsThen(a: Memory, b: Memory, c: Memory)
    requires OnlyMaps(a, b) && OnlyMaps(b, c)
    ensures OnlyMaps(a, c)
  {
    KeepsIsTransitive(a, b, c);
    TakesThen(a, b, c, {}, {});
  }

  lemma OnlyMapsNothing(m: Memory)
    requires |m.dir| == ENTRIES
    ensures OnlyMaps(m, m)
  {
  }

  /** Stores to physical memory take no frame. */
  lemma TakesDespiteStores(a: Memory, b: Memory, c: Memory, frames: set<nat>)
    requires Takes(a, b, frames) && c.used == b.used && c.dir == b.dir
    ensures Takes(a, c, frames)
  {
  }

  lemma TableTaken(dir: seq<Word>, d: nat, t: nat)
    requires |dir| == ENTRIES && d < ENTRIES && !Present(dir[d]) && t < VIRTUAL_PAGES
    ensures IsTable(dir[d := EntryFor(t)], t)
    ensures forall f: nat :: IsTable(dir, f) ==> IsTable(dir[d := EntryFor(t)], f)
    ensures forall f: nat :: IsTable(dir[d := EntryFor(t)], f) ==> IsTable(dir, f) || f == t
  {
    var after := dir[d := EntryFor(t)];
    assert Present(after[d]) && FrameOf(after[d]) == t;
    forall f: nat | IsTable(dir, f)
      ensures IsTable(after, f)
    {
      var e :| 0 <= e < ENTRIES && Present(dir[e]) && FrameOf(dir[e]) == f;
      assert Present(after[e]) && FrameOf(after[e]) == f;
    }
    forall f: nat | IsTable(after, f) && f != t
      ensures IsTable(dir, f)
    {
      var e :| 0 <= e < ENTRIES && Present(after[e]) && FrameOf(after[e]) == f;
      assert e != d && Present(dir[e]) && FrameOf(dir[e]) == f;
    }
  }

  /** A uint64_t passed as a uintptr_t or a uint32_t */
  function Low32(x: nat): Word {
    x % WORD_LIMIT
  }

  /** What init_vmm maps for one usable region. */
  function HighImage(r: Region): map<nat, nat> {
    RegionMap(Low32(HIGH_MEMORY_BASE + r.addr), Low32(r.addr), Low32(r.len))
  }

  /** The loop of map_region ends for the image of the region. */
  predicate HighImageEnds(r: Region) {
    Mappable(Low32(HIGH_MEMORY_BASE + r.addr), Low32(r.len))
  }

  lemma RegionStart(address: Word, physical: Word, size: Word, m: map<nat, nat>)
    ensures address < (address + size) % WORD_LIMIT <==> 0 < PagesOf(LoopBytes(address, size))
    ensures m == m + Block(address / PAGE_SIZE, physical / PAGE_SIZE, 0)
    ensures physical == Low32(physical + 0 * PAGE_SIZE)
  {
  }

  /** Where the loop of map_region stands after n rounds, and after one more. */
  lemma RegionStep(address: Word, physical: Word, size: Word, n: nat)
    requires Mappable(address, size) && n < PagesOf(LoopBytes(address, size))
    ensures (address + n * PAGE_SIZE) / PAGE_SIZE == address / PAGE_SIZE + n
    ensures address + n * PAGE_SIZE + PAGE_SIZE < WORD_LIMIT
    ensures address + (n + 1) * PAGE_SIZE < (address + size) % WORD_LIMIT <==> n + 1 < PagesOf(LoopBytes(address, size))
  {
    LoopEnd(address, size, address + (n + 1) * PAGE_SIZE);
  }

  /** The physical address after n rounds, and after one more. */
  lemma PhysicalStep(physical: Word, n: nat)
    ensures Low32(physical + n * PAGE_SIZE) / PAGE_SIZE == (physical / PAGE_SIZE + n) % VIRTUAL_PAGES
    ensures Low32(Low32(physical + n * PAGE_SIZE) + PAGE_SIZE) == Low32(physical + (n + 1) * PAGE_SIZE)
  {
    OffsetInPage(physical + n * PAGE_SIZE);
    assert (physical + n * PAGE_SIZE) / PAGE_SIZE == physical / PAGE_SIZE + n;
    SumWraps(physical + n * PAGE_SIZE);
    assert physical + (n + 1) * PAGE_SIZE == physical + n * PAGE_SIZE + PAGE_SIZE;
  }

  lemma SumWraps(x: nat)
    ensures Low32(Low32(x) + PAGE_SIZE) == Low32(x + PAGE_SIZE)
  {
    var q := x / WORD_LIMIT;
    assert x == q * WORD_LIMIT + Low32(x);
    if Low32(x) + PAGE_SIZE < WORD_LIMIT {
      assert (x + PAGE_SIZE) / WORD_LIMIT == q;
    } else {
      assert (x + PAGE_SIZE) / WORD_LIMIT == q + 1;
    }
  }

  lemma FixedRegionsEnd()
    ensures Mappable(0, FOUR_MEGABYTES) && Mappable(VGA_MEMORY, PAGE_SIZE)
  {
  }

  function HighMap(regions: seq<Region>): map<nat, nat> {
    if regions == [] then map[] else HighMap(regions[..|regions| - 1]) + HighImage(regions[|regions| - 1])
  }

  /** What init_vmm maps, later mappings over earlier ones. */
  function BootMap(kernelStart: Word, kernelEnd: Word, usable: seq<Region>): map<nat, nat>
    requires kernelStart <= kernelEnd
  {
    RegionMap(0, 0, FOUR_MEGABYTES)
    + RegionMap(HIGH_MEMORY_BASE, kernelStart, kernelEnd - kernelStart)
    + HighMap(usable)
    + RegionMap(VGA_MEMORY, VGA_MEMORY, PAGE_SIZE)
  }

  class AddressSpace {
    const pmm: Pmm.FrameBitmap
    const directory: array<Word>
    /** Physical memory below max_frames, as words. */
    const ram: array<Word>

    ghost predicate Valid()
      reads pmm.bitmap, directory, ram
    {
      && pmm.Valid()
      && directory != ram && pmm.bitmap != directory && pmm.bitmap != ram
      && ram.Length == pmm.maxFrames * ENTRIES
      && TablesOk(directory[..], pmm.Used(), pmm.maxFrames)
    }

    /** The partial map from virtual pages to frames. */
    ghost function Map(): map<nat, nat>
      requires Valid()
      reads pmm.bitmap, directory, ram
    {
      Mapping(directory[..], ram[..])
    }

    /** No frame is left that the allocator could hand out. */
    ghost predicate OutOfFrames()
      reads pmm.bitmap
    {
      Pmm.FrameRange(0, Pmm.ScannedFrames(pmm.maxFrames)) <= pmm.Used()
    }

    constructor (pmm: Pmm.FrameBitmap, directory: array<Word>, ram: array<Word>)
      requires pmm.Valid()
      requires directory != ram && pmm.bitmap != directory && pmm.bitmap != ram
      requires directory.Length == ENTRIES && ram.Length == pmm.maxFrames * ENTRIES
      modifies directory
      ensures this.pmm == pmm && this.directory == directory && this.ram == ram
      ensures Valid() && Map() == map[] && forall f: nat :: !IsTable(directory[..], f)
    {
      this.pmm := pmm;
      this.directory := directory;
      this.ram := ram;
      new;
      for d := 0 to ENTRIES
        invariant forall k :: 0 <= k < d ==> directory[k] == 0
      {
        directory[d] := 0;
      }
    }

    ghost function Snapshot(): Memory
      requires Valid()
      reads pmm.bitmap, directory, ram
    {
      Memory(pmm.Used(), directory[..], ram[..])
    }

    /** mset(page_table, 0, 4096), a word at a time. */
    method ZeroFrame(t: nat)
      requires t < pmm.maxFrames && ram.Length == pmm.maxFrames * ENTRIES
      modifies ram
      ensures Zeroed(old(ram[..]), ram[..], t)
    {
      for i := 0 to ENTRIES
        invariant forall k :: 0 <= k < ram.Length ==>
                    ram[k] == if t * ENTRIES <= k < t * ENTRIES + i then 0 else old(ram[k])
      {
        ram[Cell(t, i)] := 0;
      }
    }

    /** alloc_page_table: the address of a zeroed frame, or 0. */
    method AllocPageTable() returns (table: Word)
      requires Valid()
      modifies pmm.bitmap, ram
      ensures pmm.Valid() && directory[..] == old(directory[..])
      ensures table % PAGE_SIZE == 0
      ensures var t := table / PAGE_SIZE;
              && t == Pmm.LowestFree(old(pmm.Used()), Pmm.ScannedFrames(pmm.maxFrames))
              && pmm.Used() == old(pmm.Used()) + {t}
              && (if t == 0 then ram[..] == old(ram[..]) else Zeroed(old(ram[..]), ram[..], t))
    {
      table := pmm.AllocPage();
      if table == 0 {
        return;
      }
      ZeroFrame(table / PAGE_SIZE);
    }

    /** The part of map_page that finds or makes the table of directory entry d. */
    method EnsureTable(d: nat) returns (ok: bool)
      requires Valid() && d < ENTRIES
      modifies pmm.bitmap, directory, ram
      ensures Valid() && Map() == old(Map())
      ensures if ok then Present(directory[d]) else OutOfFrames()
      ensures ok && !old(Present(directory[d])) ==> directory[d] % 4096 == 3
      ensures OnlyMaps(old(Snapshot()), Snapshot())
    {
      hide Mapping, Pmm.FrameBitmap.Used, Pmm.LowestFree;
      if Present(directory[d]) {
        return true;
      }
      var table := AllocPageTable();
      if table == 0 {
        return false;
      }
      TableAdded(directory[..], old(ram[..]), old(pmm.Used()), pmm.maxFrames, d, table / PAGE_SIZE, ram[..]);
      ghost var before := directory[..];
      TableTaken(before, d, table / PAGE_SIZE);
      directory[d] := EntryFor(table / PAGE_SIZE);
      assert directory[..] == before[d := EntryFor(table / PAGE_SIZE)];
      ok := true;
    }

    /** Stores into the table entry of virtual page v. */
    method WriteEntry(v: nat, e: Word)
      requires Valid() && v < VIRTUAL_PAGES && Present(directory[v / ENTRIES])
      modifies ram
      ensures Valid()
      ensures Map() == if Present(e) then old(Map())[v := FrameOf(e)] else old(Map()) - {v}
      ensures Cell(FrameOf(directory[v / ENTRIES]), v % ENTRIES) < ram.Length
      ensures ram[Cell(FrameOf(directory[v / ENTRIES]), v % ENTRIES)] == e
      ensures OnlyMaps(old(Snapshot()), Snapshot())
    {
      EntryWritten(directory[..], ram[..], pmm.Used(), pmm.maxFrames, v, e);
      ghost var before := ram[..];
      var cell := Cell(FrameOf(directory[v / ENTRIES]), v % ENTRIES);
      ram[cell] := e;
      assert ram[..] == before[cell := e];
    }

    /** pmm_alloc_page for a frame that is to hold data: it was free, so it is no table. */
    method AllocDataFrame() returns (addr: Word)
      requires Valid()
      modifies pmm.bitmap
      ensures Valid() && Map() == old(Map())
      ensures addr % PAGE_SIZE == 0
      ensures var f := addr / PAGE_SIZE;
              && f == Pmm.LowestFree(old(pmm.Used()), Pmm.ScannedFrames(pmm.maxFrames))
              && Snapshot() == old(Snapshot()).(used := old(pmm.Used()) + {f})
              && (f != 0 ==> f !in old(pmm.Used()) && DataFrame(Snapshot(), f) && Pmm.FrameRange(0, f) <= old(pmm.Used()))
              && (f == 0 ==> OutOfFrames())
              && Takes(old(Snapshot()), Snapshot(), if f == 0 then {} else {f})
    {
      addr := pmm.AllocPage();
    }

    /** pmm_free_page for a frame that holds data. */
    method FreeDataFrame(addr: Word)
      requires Valid() && addr != 0 && addr % PAGE_SIZE == 0 && DataFrame(Snapshot(), addr / PAGE_SIZE)
      modifies pmm.bitmap
      ensures Valid() && Map() == old(Map())
      ensures Snapshot() == old(Snapshot()).(used := old(pmm.Used()) - {addr / PAGE_SIZE})
    {
      ghost var f := addr / PAGE_SIZE;
      assert addr == f * PAGE_SIZE;
      pmm.FreePage(addr);
      forall d | 0 <= d < ENTRIES && Present(directory[d])
        ensures FrameOf(directory[d]) != f
      {
        assert !IsTable(directory[..], f) && directory[..][d] == directory[d];
      }
    }

    /** A store into a data frame: no page-table entry is touched. */
    method PutData(cell: nat, w: Word, ghost frame: nat, ghost i: nat)
      requires Valid() && DataFrame(Snapshot(), frame) && i < ENTRIES && cell == Cell(frame, i)
      modifies ram
      ensures Valid() && Map() == old(Map())
      ensures Snapshot() == old(Snapshot()).(ram := old(ram[..])[cell := w])
    {
      DataWritten(directory[..], ram[..], pmm.Used(), pmm.maxFrames, frame, i, w);
      ghost var before := ram[..];
      ram[cell] := w;
      assert ram[..] == before[cell := w];
    }

    /** map_page. False stands for PANIC: no frame was left for a new table. */
    method MapPage(virtualAddress: Word, physicalAddress: Word) returns (ok: bool)
      requires Valid()
      modifies pmm.bitmap, directory, ram
      ensures Valid()
      ensures Map() == if ok then old(Map())[virtualAddress / PAGE_SIZE := physicalAddress / PAGE_SIZE] else old(Map())
      ensures OnlyMaps(old(Snapshot()), Snapshot())
      ensures !ok ==> OutOfFrames()
      ensures ok ==> directory[virtualAddress / 0x40_0000] % 2 == 1
                     && var cell := directory[virtualAddress / 0x40_0000] / 4096 * 1024 + virtualAddress / 4096 % 1024;
                        cell < ram.Length && ram[cell] == physicalAddress / 4096 * 4096 + 3
    {
      var directoryIndex := virtualAddress / (PAGE_SIZE * ENTRIES);
      assert virtualAddress / PAGE_SIZE / ENTRIES == directoryIndex;
      ok := EnsureTable(directoryIndex);
      if ok {
        WriteEntry(virtualAddress / PAGE_SIZE, EntryFor(FrameOf(physicalAddress)));
      }
    }

    /** unmap_page */
    method UnmapPage(virtualAddress: Word)
      requires Valid()
      modifies ram
      ensures Valid()
      ensures Map() == old(Map()) - {virtualAddress / PAGE_SIZE}
      ensures OnlyMaps(old(Snapshot()), Snapshot())
    {
      var directoryIndex := virtualAddress / (PAGE_SIZE * ENTRIES);
      assert virtualAddress / PAGE_SIZE / ENTRIES == directoryIndex;
      if !Present(directory[directoryIndex]) {
        assert Lookup(directory[..], ram[..], virtualAddress / PAGE_SIZE) == None;
        return;
      }
      WriteEntry(virtualAddress / PAGE_SIZE, 0);
    }

    /** get_physical_address */
    method GetPhysicalAddress(virtualAddress: Word) returns (physical: Word)
      requires Valid()
      ensures physical == Translate(Map(), virtualAddress)
    {
      var directoryIndex := virtualAddress / (PAGE_SIZE * ENTRIES);
      var tableIndex := virtualAddress / PAGE_SIZE % ENTRIES;
      assert virtualAddress / PAGE_SIZE / ENTRIES == directoryIndex;
      assert Map() == Mapping(directory[..], ram[..]);
      if !Present(directory[directoryIndex]) {
        return 0;
      }
      var entry := ram[Cell(FrameOf(directory[directoryIndex]), tableIndex)];
      if !Present(entry) {
        return 0;
      }
      physical := FrameOf(entry) * PAGE_SIZE + virtualAddress % PAGE_SIZE;
    }

    /** One round of map_region, after n pages from the state in which memory was m and the map was `start`. */
    method MapNext(i: Word, physical: Word, ghost m: Memory, ghost start: map<nat, nat>, ghost v: nat, ghost f: nat, ghost n: nat)
      returns (ok: bool)
      requires Valid()
      requires i / PAGE_SIZE == v + n && physical / PAGE_SIZE == (f + n) % VIRTUAL_PAGES
      requires OnlyMaps(m, Snapshot()) && Map() == start + Block(v, f, n)
      modifies pmm.bitmap, directory, ram
      ensures Valid()
      ensures OnlyMaps(m, Snapshot())
      ensures if ok then Map() == start + Block(v, f, n + 1) else OutOfFrames()
    {
      hide OnlyMaps, Block, TablesOk, Mapping;
      ok := MapPage(i, physical);
      OnlyMapsThen(m, old(Snapshot()), Snapshot());
      BlockGrows(start, v, f, n, i / PAGE_SIZE, physical / PAGE_SIZE);
    }

    /** map_region */
    method MapRegion(virtualAddress: Word, physicalAddress: Word, size: Word) returns (ok: bool)
      requires Valid() && Mappable(virtualAddress, size)
      modifies pmm.bitmap, directory, ram
      ensures Valid()
      ensures if ok then Map() == old(Map()) + RegionMap(virtualAddress, physicalAddress, size) else OutOfFrames()
      ensures OnlyMaps(old(Snapshot()), Snapshot())
    {
      hide OnlyMaps, Block, Low32, PagesOf, LoopBytes, Mapping;
      ghost var n, start, m := 0, Map(), Snapshot();
      ghost var bytes := LoopBytes(virtualAddress, size);
      var i, physical := virtualAddress, physicalAddress;
      OnlyMapsNothing(m);
      RegionStart(virtualAddress, physicalAddress, size, start);
      while i < (virtualAddress + size) % WORD_LIMIT
        invariant n <= PagesOf(bytes) && i == virtualAddress + n * PAGE_SIZE
        invariant i < (virtualAddress + size) % WORD_LIMIT <==> n < PagesOf(bytes)
        invariant physical == Low32(physicalAddress + n * PAGE_SIZE)
        invariant Valid() && OnlyMaps(m, Snapshot())
        invariant Map() == start + Block(virtualAddress / PAGE_SIZE, physicalAddress / PAGE_SIZE, n)
        decreases PagesOf(bytes) - n
      {
        RegionStep(virtualAddress, physicalAddress, size, n);
        PhysicalStep(physicalAddress, n);
        ok := MapNext(i, physical, m, start, virtualAddress / PAGE_SIZE, physicalAddress / PAGE_SIZE, n);
        if !ok {
          return;
        }
        i, physical, n := i + PAGE_SIZE, Low32(physical + PAGE_SIZE), n + 1;
      }
      ok := true;
    }

    /** The loop of init_vmm that maps the usable regions to high memory. */
    method MapUsable(regions: array<Region>, count: nat) returns (ok: bool)
      requires Valid() && count <= regions.Length
      requires forall r <- regions[..count] :: HighImageEnds(r)
      modifies pmm.bitmap, directory, ram
      ensures Valid() && OnlyMaps(old(Snapshot()), Snapshot())
      ensures if ok then Map() == old(Map()) + HighMap(regions[..count]) else OutOfFrames()
    {
      hide OnlyMaps, RegionMap, Mapping;
      ghost var m := Snapshot();
      OnlyMapsNothing(m);
      ok := true;
      for i := 0 to count
        invariant Valid() && ok && OnlyMaps(m, Snapshot())
        invariant Map() == old(Map()) + HighMap(regions[..i])
      {
        assert regions[i] in regions[..count] && regions[..i + 1][..i] == regions[..i];
        SumAssociates(old(Map()), HighMap(regions[..i]), HighImage(regions[i]));
        ghost var before := Snapshot();
        ok := MapRegion(Low32(HIGH_MEMORY_BASE + regions[i].addr), Low32(regions[i].addr), Low32(regions[i].len));
        OnlyMapsThen(m, before, Snapshot());
        if !ok {
          return;
        }
      }
    }

    /** init_vmm after the directory has been cleared; loading CR3 and setting the paging bit are left out. */
    method InitVmm(info: BootInfo, records: RecordMemory, kernelStart: Word, kernelEnd: Word, ghost entries: seq<MmapEntry>)
      returns (ok: bool)
      requires Valid() && Map() == map[]
      requires kernelStart <= kernelEnd && Mappable(HIGH_MEMORY_BASE, kernelEnd - kernelStart)
      requires Tiles(records, info.mmapAddr, entries, info.mmapAddr + info.mmapLength)
      requires |UsableRegions(entries)| <= 32
      requires forall r <- UsableRegions(entries) :: HighImageEnds(r)
      modifies pmm.bitmap, directory, ram
      ensures Valid() && OnlyMaps(old(Snapshot()), Snapshot())
      ensures if ok then Map() == BootMap(kernelStart, kernelEnd, UsableRegions(entries)) else OutOfFrames()
    {
      hide OnlyMaps, RegionMap, HighMap, TablesOk, Mapping, Mappable, Tiles, UsableRegions, HighImageEnds;
      FixedRegionsEnd();
      ghost var m := Snapshot();
      SumAssociates(RegionMap(0, 0, FOUR_MEGABYTES), map[], map[]);
      ok := MapRegion(0, 0, FOUR_MEGABYTES);
      if !ok {
        return;
      }
      ghost var m1 := Snapshot();
      ok := MapRegion(HIGH_MEMORY_BASE, kernelStart, kernelEnd - kernelStart);
      OnlyMapsThen(m, m1, Snapshot());
      if !ok {
        return;
      }
      var regions := new Region[32](_ => Region(0, 0, 0));
      var count := GetUsableRegions(info, records, regions, entries);
      ghost var m2 := Snapshot();
      ok := MapUsable(regions, count);
      OnlyMapsThen(m, m2, Snapshot());
      if !ok {
        return;
      }
      ghost var m3 := Snapshot();
      ok := MapRegion(VGA_MEMORY, VGA_MEMORY, PAGE_SIZE);
      OnlyMapsThen(m, m3, Snapshot());
    }
  }
}
