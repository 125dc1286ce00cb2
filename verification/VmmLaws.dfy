/** The address space after boot, page by page, for every memory map with which init_vmm ends. */
module VmmLaws {
  import opened Words
  import opened Multiboot
  import opened PageTables
  import opened Vmm

  const HIGH_PAGE := HIGH_MEMORY_BASE / PAGE_SIZE

  /** How many frames have an image in high memory. */
  const HIGH_FRAMES := VIRTUAL_PAGES - HIGH_PAGE

  const VGA_PAGE := VGA_MEMORY / PAGE_SIZE

  /** The frame whose image is page v: addresses are sums of 32-bit words, so images wrap around. */
  function FrameAt(v: nat): nat {
    (v + HIGH_FRAMES) % VIRTUAL_PAGES
  }

  /** The first page and the first frame that init_vmm maps for r, and how many of both. */
  function ImageFrom(r: Region): nat {
    Low32(HIGH_MEMORY_BASE + r.addr) / PAGE_SIZE
  }

  function MappedFrom(r: Region): nat {
    Low32(r.addr) / PAGE_SIZE
  }

  function MappedPages(r: Region): nat {
    PagesOf(LoopBytes(Low32(HIGH_MEMORY_BASE + r.addr), Low32(r.len)))
  }

  /** Frame f is one of the consecutive frames mapped for r; behind the last one of 4 GB comes the first. */
  predicate MapsFrame(r: Region, f: nat) {
    f < VIRTUAL_PAGES && (f + VIRTUAL_PAGES - MappedFrom(r)) % VIRTUAL_PAGES < MappedPages(r)
  }

  predicate SomeMapsFrame(regions: seq<Region>, f: nat) {
    exists r <- regions :: MapsFrame(r, f)
  }

  /** The pages mapped for a region are the images of its frames, also where the addresses wrap around. */
  lemma HighImageIsImage(r: Region, v: nat)
    requires HighImageEnds(r)
    ensures v in HighImage(r) <==> v < VIRTUAL_PAGES && MapsFrame(r, FrameAt(v))
    ensures v in HighImage(r) <==> ImageFrom(r) <= v < ImageFrom(r) + MappedPages(r)
    ensures v in HighImage(r) ==> HighImage(r)[v] == FrameAt(v)
  {
    hide PagesOf, LoopBytes;
    ImageOfAddress(r.addr);
    PagesEnd(Low32(HIGH_MEMORY_BASE + r.addr), MappedPages(r));
    ImageOfRun(ImageFrom(r), MappedFrom(r), MappedPages(r), v);
  }

  lemma ImageOfAddress(addr: nat)
    ensures Low32(HIGH_MEMORY_BASE + addr) / PAGE_SIZE == (HIGH_PAGE + Low32(addr) / PAGE_SIZE) % VIRTUAL_PAGES
  {
    var a := Low32(addr);
    assert Low32(HIGH_MEMORY_BASE + addr) == if a < WORD_LIMIT - HIGH_MEMORY_BASE then HIGH_MEMORY_BASE + a
                                             else a - (WORD_LIMIT - HIGH_MEMORY_BASE);
  }

  lemma PagesEnd(address: Word, n: nat)
    requires address + n * PAGE_SIZE < WORD_LIMIT
    ensures address / PAGE_SIZE + n <= VIRTUAL_PAGES
  {
  }

  /** Consecutive pages on consecutive frames: if the first is an image, all are. */
  lemma ImageOfRun(first: nat, frame: nat, n: nat, v: nat)
    requires first == (HIGH_PAGE + frame) % VIRTUAL_PAGES
    requires frame < VIRTUAL_PAGES && first + n <= VIRTUAL_PAGES
    ensures first <= v < first + n <==> v < VIRTUAL_PAGES && (FrameAt(v) + VIRTUAL_PAGES - frame) % VIRTUAL_PAGES < n
    ensures first <= v < first + n ==> (frame + (v - first)) % VIRTUAL_PAGES == FrameAt(v)
  {
    if v < VIRTUAL_PAGES {
      assert FrameAt(v) == if v < HIGH_PAGE then v + HIGH_FRAMES else v - HIGH_PAGE;
      assert first == if frame < HIGH_FRAMES then frame + HIGH_PAGE else frame - HIGH_FRAMES;
    }
  }

  /** What init_vmm maps for the regions: page v to frame FrameAt(v), whatever the regions and their overlap. */
  lemma {:induction false} HighMapIsImage(regions: seq<Region>, v: nat)
    requires forall r <- regions :: HighImageEnds(r)
    ensures v in HighMap(regions) <==> v < VIRTUAL_PAGES && SomeMapsFrame(regions, FrameAt(v))
    ensures v in HighMap(regions) ==> HighMap(regions)[v] == FrameAt(v)
  {
    hide HighImage, MapsFrame, HighImageEnds, FrameAt;
    if regions != [] {
      var front, r := regions[..|regions| - 1], regions[|regions| - 1];
      HighMapIsImage(front, v);
      assert r in regions;
      HighImageIsImage(r, v);
      assert forall q :: q in regions <==> q in front || q == r;
      assert SomeMapsFrame(regions, FrameAt(v)) <==> SomeMapsFrame(front, FrameAt(v)) || MapsFrame(r, FrameAt(v));
    }
  }

  function KernelPages(kernelStart: Word, kernelEnd: Word): nat
    requires kernelStart <= kernelEnd
  {
    PagesOf(LoopBytes(HIGH_MEMORY_BASE, kernelEnd - kernelStart))
  }

  /** The address space that init_vmm leaves, exactly, for every memory map with which it ends. */
  lemma BootMapIsExact(kernelStart: Word, kernelEnd: Word, usable: seq<Region>, v: nat)
    requires kernelStart <= kernelEnd && forall r <- usable :: HighImageEnds(r)
    ensures var m := BootMap(kernelStart, kernelEnd, usable);
            if v == VGA_PAGE then
              v in m && m[v] == v
            else if v < VIRTUAL_PAGES && SomeMapsFrame(usable, FrameAt(v)) then
              v in m && m[v] == FrameAt(v)
            else if HIGH_PAGE <= v < HIGH_PAGE + KernelPages(kernelStart, kernelEnd) then
              v in m && m[v] == (kernelStart / PAGE_SIZE + (v - HIGH_PAGE)) % VIRTUAL_PAGES
            else if v < 1024 then
              v in m && m[v] == v
            else
              v !in m
  {
    hide SomeMapsFrame, FrameAt, HighImageEnds, RegionMap, HighMap, PagesOf, LoopBytes;
    HighMapIsImage(usable, v);
    RegionAt(0, 0, FOUR_MEGABYTES, v);
    RegionAt(HIGH_MEMORY_BASE, kernelStart, kernelEnd - kernelStart, v);
    RegionAt(VGA_MEMORY, VGA_MEMORY, PAGE_SIZE, v);
    FixedRegions();
  }

  lemma FixedRegions()
    ensures PagesOf(LoopBytes(0, FOUR_MEGABYTES)) == 1024 && PagesOf(LoopBytes(VGA_MEMORY, PAGE_SIZE)) == 1
  {
  }

  /** r has a page of its image at address a. */
  predicate ImageAt(r: Region, a: Word) {
    var first, size := (0xC000_0000 + r.addr) % 0x1_0000_0000, r.len % 0x1_0000_0000;
    first + size < 0x1_0000_0000 && first / 4096 <= a / 4096 && 4096 * (a / 4096 - first / 4096) < size
  }

  /** The same by addresses: what every address translates to after init_vmm. */
  lemma BootAddresses(kernelStart: Word, kernelEnd: Word, usable: seq<Region>, a: Word)
    requires kernelStart <= kernelEnd && forall r <- usable :: HighImageEnds(r)
    ensures var m := BootMap(kernelStart, kernelEnd, usable);
            if 0xB_8000 <= a < 0xB_9000 then
              Translate(m, a) == a
            else if exists r <- usable :: ImageAt(r, a) then
              Translate(m, a) == (a + 0x4000_0000) % 0x1_0000_0000
            else if 0xC000_0000 <= a && 4096 * (a / 4096 - 0xC_0000) < kernelEnd - kernelStart < 0x4000_0000 then
              Translate(m, a) == (kernelStart / 4096 + (a / 4096 - 0xC_0000)) % 0x10_0000 * 4096 + a % 4096
            else if a < 0x40_0000 then
              Translate(m, a) == a
            else
              a / 4096 !in m && Translate(m, a) == 0
  {
    hide BootMap, SomeMapsFrame, HighImageEnds, ImageAt, MapsFrame, FrameAt, KernelPages;
    BootMapIsExact(kernelStart, kernelEnd, usable, a / 4096);
    AddressAt(a);
    KernelPagesIff(kernelStart, kernelEnd, a / 4096);
    forall r <- usable
      ensures ImageAt(r, a) <==> MapsFrame(r, FrameAt(a / 4096))
    {
      ImageAtIff(r, a);
    }
    assert SomeMapsFrame(usable, FrameAt(a / 4096)) <==> exists r <- usable :: ImageAt(r, a) by {
      SomeImageIff(usable, a);
    }
  }

  lemma SomeImageIff(usable: seq<Region>, a: Word)
    requires forall r <- usable :: ImageAt(r, a) <==> MapsFrame(r, FrameAt(a / 4096))
    ensures SomeMapsFrame(usable, FrameAt(a / 4096)) <==> exists r <- usable :: ImageAt(r, a)
  {
    hide ImageAt, MapsFrame, FrameAt;
  }

  lemma AddressAt(a: Word)
    ensures FrameAt(a / 4096) * 4096 + a % 4096 == (a + 0x4000_0000) % 0x1_0000_0000
    ensures a / 4096 == VGA_PAGE <==> 0xB_8000 <= a < 0xB_9000
    ensures a / 4096 < 1024 <==> a < 0x40_0000
    ensures a / 4096 < VIRTUAL_PAGES
  {
  }

  lemma KernelPagesIff(kernelStart: Word, kernelEnd: Word, v: nat)
    requires kernelStart <= kernelEnd
    ensures HIGH_PAGE <= v < HIGH_PAGE + KernelPages(kernelStart, kernelEnd)
            <==> 0xC_0000 <= v && 4096 * (v - 0xC_0000) < kernelEnd - kernelStart < 0x4000_0000
  {
    RegionPagesIff(HIGH_MEMORY_BASE, kernelStart, kernelEnd - kernelStart, v);
    RegionAt(HIGH_MEMORY_BASE, kernelStart, kernelEnd - kernelStart, v);
  }

  lemma ImageAtIff(r: Region, a: Word)
    requires HighImageEnds(r)
    ensures ImageAt(r, a) <==> MapsFrame(r, FrameAt(a / 4096))
  {
    hide MapsFrame, FrameAt;
    HighImageIsImage(r, a / 4096);
    RegionPagesIff(Low32(HIGH_MEMORY_BASE + r.addr), Low32(r.addr), Low32(r.len), a / 4096);
  }

  // ---------------------------------------------------------------- the identity of low memory

  /** r has no image in the first four megabytes, but perhaps on the VGA page alone, which is mapped once more. */
  predicate SparesLowMemory(r: Region) {
    MappedPages(r) == 0 || 1024 <= ImageFrom(r) || (MappedPages(r) == 1 && ImageFrom(r) == VGA_PAGE)
  }

  /**
   * Low memory is mapped to itself after init_vmm exactly when the image of every usable region spares it.
   * A region that starts below one gigabyte always does, one that starts there never does if it is mapped.
   */
  lemma LowMemoryIsIdentityIff(kernelStart: Word, kernelEnd: Word, usable: seq<Region>)
    requires kernelStart <= kernelEnd && forall r <- usable :: HighImageEnds(r)
    ensures (forall b: Word :: b < FOUR_MEGABYTES ==> Translate(BootMap(kernelStart, kernelEnd, usable), b) == b)
            <==> (forall r <- usable :: SparesLowMemory(r))
  {
    hide BootMap, HighImageEnds, ImageFrom, MappedPages, SomeMapsFrame, FrameAt;
    var m := BootMap(kernelStart, kernelEnd, usable);
    if forall r <- usable :: SparesLowMemory(r) {
      forall b: Word | b < FOUR_MEGABYTES
        ensures Translate(m, b) == b
      {
        BootMapIsExact(kernelStart, kernelEnd, usable, b / PAGE_SIZE);
        if b / PAGE_SIZE != VGA_PAGE {
          SparedPage(usable, b / PAGE_SIZE);
        }
      }
    } else {
      var r :| r in usable && !SparesLowMemory(r);
      var v := if ImageFrom(r) == VGA_PAGE then ImageFrom(r) + 1 else ImageFrom(r);
      HighImageIsImage(r, v);
      SomeMapsFrameOf(usable, r, FrameAt(v));
      BootMapIsExact(kernelStart, kernelEnd, usable, v);
      NotItself(m, v);
    }
  }

  lemma NotItself(m: map<nat, nat>, v: nat)
    requires v < 1024 && v in m && m[v] == FrameAt(v)
    ensures Translate(m, v * PAGE_SIZE) != v * PAGE_SIZE
  {
    assert v * PAGE_SIZE / PAGE_SIZE == v;
  }

  lemma SparedPage(usable: seq<Region>, v: nat)
    requires v < 1024 && v != VGA_PAGE && forall r <- usable :: SparesLowMemory(r) && HighImageEnds(r)
    ensures !SomeMapsFrame(usable, FrameAt(v))
  {
    hide HighImageEnds, ImageFrom, MappedPages, FrameAt, MapsFrame;
    forall r <- usable
      ensures !MapsFrame(r, FrameAt(v))
    {
      HighImageIsImage(r, v);
    }
  }

  /** With usable memory at one gigabyte, an address below four megabytes translates to it. */
  lemma UsableMemoryAtOneGigabyte()
    ensures var usable := [Region(0x4000_0000, 0x1000, USABLE)];
            && (forall r <- usable :: HighImageEnds(r))
            && Translate(BootMap(0x10_0000, 0x20_0000, usable), 0x123) == 0x4000_0123
  {
    hide BootMap, SomeMapsFrame, HighImageEnds, MapsFrame, FrameAt;
    var r := Region(0x4000_0000, 0x1000, USABLE);
    PageAtOneGigabyte(r);
    SomeMapsFrameOf([r], r, FrameAt(0));
    BootMapIsExact(0x10_0000, 0x20_0000, [r], 0);
  }

  lemma PageAtOneGigabyte(r: Region)
    requires r.addr == 0x4000_0000 && r.len == 0x1000
    ensures HighImageEnds(r) && FrameAt(0) == 0x4_0000 && MapsFrame(r, 0x4_0000)
  {
  }

  // ---------------------------------------------------------------- the direct map of high memory

  /** The image of frame f in high memory is mapped to f. */
  predicate Direct(m: map<nat, nat>, f: nat) {
    HIGH_PAGE + f in m && m[HIGH_PAGE + f] == f
  }

  /** A frame is mapped directly exactly when some usable region maps it, or the kernel mapping starts at frame 0. */
  lemma DirectIff(kernelStart: Word, kernelEnd: Word, usable: seq<Region>, f: nat)
    requires kernelStart <= kernelEnd && forall r <- usable :: HighImageEnds(r)
    ensures Direct(BootMap(kernelStart, kernelEnd, usable), f)
            <==> f < HIGH_FRAMES
                 && (SomeMapsFrame(usable, f) || (kernelStart < PAGE_SIZE && f < KernelPages(kernelStart, kernelEnd)))
  {
    hide BootMap, SomeMapsFrame, HighImageEnds, KernelPages;
    BootMapIsExact(kernelStart, kernelEnd, usable, HIGH_PAGE + f);
    KernelFits(kernelStart, kernelEnd);
    if f < HIGH_FRAMES {
      assert FrameAt(HIGH_PAGE + f) == f;
    }
  }

  lemma KernelFits(kernelStart: Word, kernelEnd: Word)
    requires kernelStart <= kernelEnd
    ensures KernelPages(kernelStart, kernelEnd) <= HIGH_FRAMES
  {
  }

  /**
   * Every byte of the first gigabyte that lies in a usable region covered by map_region is found at its
   * physical address plus HIGH_MEMORY_BASE, also where that replaces the earlier kernel mapping, and
   * whatever the other regions are.
   */
  lemma DirectMapAfterBoot(kernelStart: Word, kernelEnd: Word, usable: seq<Region>, r: Region, b: nat)
    requires kernelStart <= kernelEnd && forall q <- usable :: HighImageEnds(q)
    requires r in usable && Covered(r) && r.addr <= b < r.addr + r.len
    ensures HIGH_MEMORY_BASE + b < WORD_LIMIT
    ensures Translate(BootMap(kernelStart, kernelEnd, usable), HIGH_MEMORY_BASE + b) == b
  {
    hide BootMap, SomeMapsFrame, HighImageEnds, KernelPages, Direct, MapsFrame, PagesOf;
    CoveredFrame(r, b / PAGE_SIZE);
    SomeMapsFrameOf(usable, r, b / PAGE_SIZE);
    DirectIff(kernelStart, kernelEnd, usable, b / PAGE_SIZE);
    DirectByte(BootMap(kernelStart, kernelEnd, usable), b);
  }

  lemma DirectByte(m: map<nat, nat>, b: nat)
    requires Direct(m, b / PAGE_SIZE) && HIGH_MEMORY_BASE + b < WORD_LIMIT
    ensures Translate(m, HIGH_MEMORY_BASE + b) == b
  {
    assert (HIGH_MEMORY_BASE + b) / PAGE_SIZE == HIGH_PAGE + b / PAGE_SIZE;
    assert (HIGH_MEMORY_BASE + b) % PAGE_SIZE == b % PAGE_SIZE;
  }

  /** The image of the region ends below 4 GB, and its start does not push it over a page boundary. */
  predicate Covered(r: Region) {
    && HIGH_MEMORY_BASE + r.addr + r.len < WORD_LIMIT
    && r.addr % PAGE_SIZE + r.len <= PagesOf(r.len) * PAGE_SIZE
  }

  /** All frames that a region touches are mapped for it exactly when it is covered. */
  lemma CoveredIff(r: Region)
    requires r.len > 0 && HIGH_MEMORY_BASE + r.addr < WORD_LIMIT && r.len < WORD_LIMIT
    ensures (forall f :: r.addr / PAGE_SIZE <= f <= (r.addr + r.len - 1) / PAGE_SIZE ==> MapsFrame(r, f)) <==> Covered(r)
  {
    var last := (r.addr + r.len - 1) / PAGE_SIZE;
    if Covered(r) {
      forall f | r.addr / PAGE_SIZE <= f <= last
        ensures MapsFrame(r, f)
      {
        CoveredFrame(r, f);
      }
    } else {
      assert r.addr / PAGE_SIZE <= last;
      UncoveredFrame(r);
    }
  }

  lemma CoveredFrame(r: Region, f: nat)
    requires Covered(r) && r.addr / PAGE_SIZE <= f && f * PAGE_SIZE < r.addr + r.len
    ensures MapsFrame(r, f) && f < HIGH_FRAMES
  {
    var first, n := r.addr / PAGE_SIZE, PagesOf(r.len);
    assert MappedFrom(r) == first && MappedPages(r) == n;
    assert f < first + n by {
      hide PagesOf;
      assert r.addr + r.len <= (first + n) * PAGE_SIZE;
    }
    assert f < HIGH_FRAMES;
  }

  lemma UncoveredFrame(r: Region)
    requires r.len > 0 && HIGH_MEMORY_BASE + r.addr < WORD_LIMIT && r.len < WORD_LIMIT && !Covered(r)
    ensures !MapsFrame(r, (r.addr + r.len - 1) / PAGE_SIZE)
  {
    assert (r.addr + r.len - 1) / PAGE_SIZE < VIRTUAL_PAGES ==> r.addr / PAGE_SIZE <= (r.addr + r.len - 1) / PAGE_SIZE;
    assert Low32(r.addr) == r.addr && Low32(HIGH_MEMORY_BASE + r.addr) == HIGH_MEMORY_BASE + r.addr && Low32(r.len) == r.len;
    if HIGH_MEMORY_BASE + r.addr + r.len < WORD_LIMIT {
      assert MappedPages(r) == PagesOf(r.len);
    } else {
      NoPages();
    }
  }

  lemma NoPages()
    ensures PagesOf(0) == 0
  {
  }

  lemma SomeMapsFrameOf(regions: seq<Region>, r: Region, f: nat)
    requires r in regions && MapsFrame(r, f)
    ensures SomeMapsFrame(regions, f)
  {
  }

  /**
   * A usable region is missing from the address space altogether exactly when its size is 0 as a 32-bit
   * word, or the end of its image wraps around: map_region then maps no page.
   */
  lemma RegionMissingIff(r: Region)
    ensures HighImage(r) == map[]
            <==> Low32(r.len) == 0 || Low32(HIGH_MEMORY_BASE + r.addr) + Low32(r.len) >= WORD_LIMIT
  {
    var first := Low32(HIGH_MEMORY_BASE + r.addr) / PAGE_SIZE;
    if MappedPages(r) > 0 {
      assert first in HighImage(r);
    }
  }

  // ---------------------------------------------------------------- memory maps with which init_vmm does not end

  /**
   * For a usable region whose image ends in the last page of the address space, the loop of map_region never
   * ends: each time the counter is inside the range, and maps one more page. The region given here is one.
   */
  lemma UsableMemoryBelowOneGigabyte()
    ensures var r := Region(0x3FFF_F000, 0x800, USABLE);
            && !HighImageEnds(r)
            && NeverEnds(Low32(HIGH_MEMORY_BASE + r.addr), Low32(r.len))
  {
    var r := Region(0x3FFF_F000, 0x800, USABLE);
    assert !HighImageEnds(r);
    LoopEndsIff(Low32(HIGH_MEMORY_BASE + r.addr), Low32(r.len));
  }

  /** A usable region that crosses 4 GB is mapped: its frames go on with frame 0, on the page of frame 0. */
  lemma UsableMemoryAcrossFourGigabytes(kernelStart: Word, kernelEnd: Word)
    requires kernelStart <= kernelEnd
    ensures var r := Region(0xF000_0000, 0x2000_0000, USABLE);
            HighImageEnds(r) && Direct(BootMap(kernelStart, kernelEnd, [r]), 0)
  {
    hide BootMap, SomeMapsFrame, HighImageEnds;
    var r := Region(0xF000_0000, 0x2000_0000, USABLE);
    FrameZeroAcross(r);
    SomeMapsFrameOf([r], r, 0);
    DirectIff(kernelStart, kernelEnd, [r], 0);
  }

  lemma FrameZeroAcross(r: Region)
    requires r.addr == 0xF000_0000 && r.len == 0x2000_0000
    ensures HighImageEnds(r) && MapsFrame(r, 0)
  {
  }
}
