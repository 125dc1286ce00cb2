/**
 * Two-level 32-bit page tables (Intel SDM Vol. 3A, section 4.3) as words: a directory of 1024
 * entries, and tables that are frames of physical memory. The lemmas show that the words refine
 * one partial map from virtual pages to frames.
 */
module PageTables {
  import opened Words

  const ENTRIES := 1024
  const VIRTUAL_PAGES := 0x10_0000

  datatype Option<T> = None | Some(value: T)

  /** Bit 0 of an entry. */
  predicate Present(e: Word) {
    e % 2 == 1
  }

  /** `e & 0xFFFFF000`, as a frame number. */
  function FrameOf(e: Word): (f: nat)
    ensures f < VIRTUAL_PAGES
  {
    e / PAGE_SIZE
  }

  /** `address | 0x3` for the page-aligned address of a frame: present and writable. */
  function EntryFor(frame: nat): (e: Word)
    requires frame < VIRTUAL_PAGES
    ensures Present(e) && FrameOf(e) == frame && e % 4096 == 3
  {
    frame * PAGE_SIZE + 3
  }

  /** Index of word i of a frame in physical memory. */
  function Cell(frame: nat, i: nat): nat
    requires i < ENTRIES
  {
    frame * ENTRIES + i
  }

  predicate IsTable(dir: seq<Word>, frame: nat)
    requires |dir| == ENTRIES
  {
    exists d :: 0 <= d < ENTRIES && Present(dir[d]) && FrameOf(dir[d]) == frame
  }

  /** Present directory entries name distinct, non-zero, used frames of physical memory. */
  predicate TablesOk(dir: seq<Word>, used: set<nat>, frames: nat) {
    && |dir| == ENTRIES
    && (forall d :: 0 <= d < ENTRIES && Present(dir[d]) ==>
          0 < FrameOf(dir[d]) < frames && FrameOf(dir[d]) in used)
    && (forall d, e :: 0 <= d < e < ENTRIES && Present(dir[d]) && Present(dir[e]) ==>
          FrameOf(dir[d]) != FrameOf(dir[e]))
  }

  /** Physical memory holds every table. */
  predicate Readable(dir: seq<Word>, ram: seq<Word>) {
    |dir| == ENTRIES && forall d :: 0 <= d < ENTRIES && Present(dir[d]) ==> (FrameOf(dir[d]) + 1) * ENTRIES <= |ram|
  }

  /** The walk: the frame that virtual page v is mapped to. */
  function Lookup(dir: seq<Word>, ram: seq<Word>, v: nat): Option<nat>
    requires Readable(dir, ram) && v < VIRTUAL_PAGES
  {
    var directoryEntry := dir[v / ENTRIES];
    if !Present(directoryEntry) then
      None
    else
      var tableEntry := ram[Cell(FrameOf(directoryEntry), v % ENTRIES)];
      if Present(tableEntry) then Some(FrameOf(tableEntry)) else None
  }

  /** The partial map that directory and tables stand for. */
  function Mapping(dir: seq<Word>, ram: seq<Word>): map<nat, nat>
    requires Readable(dir, ram)
  {
    map v: nat | 0 <= v < VIRTUAL_PAGES && Lookup(dir, ram, v).Some? :: Lookup(dir, ram, v).value
  }

  /** Writing the table entry of v: a present entry sets that key, a zero entry removes it. */
  lemma EntryWritten(dir: seq<Word>, ram: seq<Word>, used: set<nat>, frames: nat, v: nat, e: Word)
    requires TablesOk(dir, used, frames) && |ram| == frames * ENTRIES
    requires v < VIRTUAL_PAGES && Present(dir[v / ENTRIES])
    ensures var after := ram[Cell(FrameOf(dir[v / ENTRIES]), v % ENTRIES) := e];
            Mapping(dir, after) == if Present(e) then Mapping(dir, ram)[v := FrameOf(e)] else Mapping(dir, ram) - {v}
  {
    var after := ram[Cell(FrameOf(dir[v / ENTRIES]), v % ENTRIES) := e];
    forall w: nat | w < VIRTUAL_PAGES
      ensures Lookup(dir, after, w) ==
              if w == v then (if Present(e) then Some(FrameOf(e)) else None) else Lookup(dir, ram, w)
    {
      if w / ENTRIES == v / ENTRIES && w != v {
        assert w % ENTRIES != v % ENTRIES;
      }
    }
  }

  /** A word outside every table has no part in the map. */
  lemma DataWritten(dir: seq<Word>, ram: seq<Word>, used: set<nat>, frames: nat, frame: nat, i: nat, e: Word)
    requires TablesOk(dir, used, frames) && |ram| == frames * ENTRIES
    requires frame < frames && i < ENTRIES && !IsTable(dir, frame)
    ensures Mapping(dir, ram[Cell(frame, i) := e]) == Mapping(dir, ram)
  {
    var after := ram[Cell(frame, i) := e];
    forall w: nat | w < VIRTUAL_PAGES
      ensures Lookup(dir, after, w) == Lookup(dir, ram, w)
    {
      if Present(dir[w / ENTRIES]) {
        assert FrameOf(dir[w / ENTRIES]) != frame;
      }
    }
  }

  /** Memory after frame t has been filled with zeros. */
  predicate Zeroed(ram: seq<Word>, after: seq<Word>, t: nat) {
    && |after| == |ram|
    && forall k :: 0 <= k < |ram| ==> after[k] == if t * ENTRIES <= k < (t + 1) * ENTRIES then 0 else ram[k]
  }

  /** A new zeroed table in a frame that was free adds no key. */
  lemma TableAdded(dir: seq<Word>, ram: seq<Word>, used: set<nat>, frames: nat, d: nat, t: nat, after: seq<Word>)
    requires TablesOk(dir, used, frames) && |ram| == frames * ENTRIES
    requires d < ENTRIES && !Present(dir[d])
    requires 0 < t < frames && t < VIRTUAL_PAGES && t !in used && Zeroed(ram, after, t)
    ensures TablesOk(dir[d := EntryFor(t)], used + {t}, frames)
    ensures Mapping(dir[d := EntryFor(t)], after) == Mapping(dir, ram)
  {
    var grown := dir[d := EntryFor(t)];
    forall w: nat | w < VIRTUAL_PAGES
      ensures Lookup(grown, after, w) == Lookup(dir, ram, w)
    {
      if w / ENTRIES != d && Present(dir[w / ENTRIES]) {
        assert FrameOf(dir[w / ENTRIES]) != t;
      }
    }
  }

  /** get_physical_address: 0 for a page that is not mapped. */
  function Translate(m: map<nat, nat>, address: Word): nat {
    if address / PAGE_SIZE in m then m[address / PAGE_SIZE] * PAGE_SIZE + address % PAGE_SIZE else 0
  }

  /**
   * The walk of the processor (Intel SDM Vol. 3A, section 4.3): bits 31 to 22 of the address choose the
   * directory entry, bits 21 to 12 the table entry; bit 0 of an entry is its present bit, bits 31 to 12 are
   * the address of a frame.
   */
  function ProcessorWalk(dir: seq<Word>, ram: seq<Word>, address: Word): Option<nat>
    requires Readable(dir, ram)
  {
    var directoryEntry := dir[address / 0x40_0000];
    if directoryEntry % 2 == 0 then
      None
    else
      assert Present(directoryEntry) && FrameOf(directoryEntry) == directoryEntry / 4096;
      var tableEntry := ram[directoryEntry / 4096 * 1024 + address / 4096 % 1024];
      if tableEntry % 2 == 0 then None else Some(tableEntry / 4096 * 4096 + address % 4096)
  }

  /** The map that the words stand for is what the processor sees, and what get_physical_address looks up. */
  lemma WalkAgrees(dir: seq<Word>, ram: seq<Word>, address: Word)
    requires Readable(dir, ram)
    ensures match ProcessorWalk(dir, ram, address)
            case None => address / 4096 !in Mapping(dir, ram) && Translate(Mapping(dir, ram), address) == 0
            case Some(physical) => address / 4096 in Mapping(dir, ram) && Translate(Mapping(dir, ram), address) == physical
  {
    var v := address / 4096;
    assert v / ENTRIES == address / 0x40_0000;
    assert Lookup(dir, ram, v).Some? <==> v in Mapping(dir, ram);
  }

  // ---------------------------------------------------------------- regions

  /** How many pages map_region maps. */
  function PagesOf(size: nat): nat {
    (size + PAGE_SIZE - 1) / PAGE_SIZE
  }

  lemma SumAssociates(a: map<nat, nat>, b: map<nat, nat>, c: map<nat, nat>)
    ensures a + b + c == a + (b + c)
    ensures map[] + a == a
  {
  }

  predicate InBlock(v: nat, n: nat, w: nat) {
    v <= w < v + n
  }

  /** `n` consecutive pages from v to consecutive frames from f; frame numbers wrap around like addresses. */
  function Block(v: nat, f: nat, n: nat): map<nat, nat> {
    map w: nat | v <= w < v + n && InBlock(v, n, w) :: (f + (w - v)) % VIRTUAL_PAGES
  }

  lemma BlockGrows(m: map<nat, nat>, v: nat, f: nat, n: nat, page: nat, frame: nat)
    requires page == v + n && frame == (f + n) % VIRTUAL_PAGES
    ensures m + Block(v, f, n + 1) == (m + Block(v, f, n))[page := frame]
  {
  }

  /** The bytes that map_region loops over: the end of the range is a sum of 32-bit words. */
  function LoopBytes(address: Word, size: Word): nat {
    if address + size < WORD_LIMIT then size else 0
  }

  /** What map_region adds. */
  function RegionMap(address: Word, physical: Word, size: Word): map<nat, nat> {
    Block(address / PAGE_SIZE, physical / PAGE_SIZE, PagesOf(LoopBytes(address, size)))
  }

  lemma LoopEnd(address: Word, size: Word, i: nat)
    requires i >= address
    ensures i < (address + size) % WORD_LIMIT <==> i < address + LoopBytes(address, size)
  {
  }

  // ---------------------------------------------------------------- when the loop of map_region ends

  /** The counter of map_region after n rounds */
  function CounterAt(address: Word, n: nat): Word {
    (address + n * PAGE_SIZE) % WORD_LIMIT
  }

  /** The pages of the range end below the end of the address space. */
  predicate Mappable(address: Word, size: Word) {
    address + PagesOf(LoopBytes(address, size)) * PAGE_SIZE < WORD_LIMIT
  }

  /** Whatever the number of rounds, the counter is still in the range. */
  ghost predicate NeverEnds(address: Word, size: Word) {
    forall n: nat :: CounterAt(address, n) < (address + size) % WORD_LIMIT
  }

  /** Whatever the number of rounds, the counter keeps its offset in the page. */
  lemma CounterOffset(address: Word, n: nat)
    ensures CounterAt(address, n) % PAGE_SIZE == address % PAGE_SIZE
  {
    var x := address + n * PAGE_SIZE;
    assert x == address / PAGE_SIZE * PAGE_SIZE + n * PAGE_SIZE + address % PAGE_SIZE;
    assert x % PAGE_SIZE == address % PAGE_SIZE;
    OffsetInPage(x);
  }

  lemma OffsetInPage(x: nat)
    ensures x % WORD_LIMIT % PAGE_SIZE == x % PAGE_SIZE
    ensures x % WORD_LIMIT / PAGE_SIZE == x / PAGE_SIZE % VIRTUAL_PAGES
  {
    var q, r := x / WORD_LIMIT, x % WORD_LIMIT;
    assert x == q * VIRTUAL_PAGES * PAGE_SIZE + r;
    assert x == (q * VIRTUAL_PAGES + r / PAGE_SIZE) * PAGE_SIZE + r % PAGE_SIZE;
    assert x / PAGE_SIZE == q * VIRTUAL_PAGES + r / PAGE_SIZE;
  }

  /**
   * The loop of map_region ends, without a PANIC on the way, exactly when the pages of its range end below the
   * end of the address space: otherwise the counter steps over the end of the range, wraps around and starts
   * again.
   */
  lemma LoopEndsIff(address: Word, size: Word)
    ensures NeverEnds(address, size) <==> !Mappable(address, size)
  {
    var end, pages := (address + size) % WORD_LIMIT, PagesOf(LoopBytes(address, size));
    if Mappable(address, size) {
      LoopEnd(address, size, address + pages * PAGE_SIZE);
      assert CounterAt(address, pages) == address + pages * PAGE_SIZE;
    } else {
      forall n: nat
        ensures CounterAt(address, n) < end
      {
        CounterOffset(address, n);
        LastPage(address, size, CounterAt(address, n));
      }
    }
  }

  /** If the last page of the range is the last one of the address space, no counter lies behind the range. */
  lemma LastPage(address: Word, size: Word, i: Word)
    requires !Mappable(address, size) && i % PAGE_SIZE == address % PAGE_SIZE
    ensures i < (address + size) % WORD_LIMIT
  {
    var pages := PagesOf(LoopBytes(address, size));
    assert address + size < WORD_LIMIT && pages > 0;
    assert (pages - 1) * PAGE_SIZE < size;
    var last := address + (pages - 1) * PAGE_SIZE;
    assert last % PAGE_SIZE == address % PAGE_SIZE && last + PAGE_SIZE >= WORD_LIMIT;
    assert i <= last by { SameOffset(i, last); }
  }

  lemma SameOffset(i: Word, last: Word)
    requires i % PAGE_SIZE == last % PAGE_SIZE && last + PAGE_SIZE >= WORD_LIMIT
    ensures i <= last
  {
  }

  // ---------------------------------------------------------------- what map_region covers

  /** What map_region adds at page v */
  lemma RegionAt(address: Word, physical: Word, size: Word, v: nat)
    ensures var m, first := RegionMap(address, physical, size), address / PAGE_SIZE;
            && (v in m <==> first <= v < first + PagesOf(LoopBytes(address, size)))
            && (v in m ==> m[v] == (physical / PAGE_SIZE + (v - first)) % VIRTUAL_PAGES)
  {
  }

  /** Which pages those are, by their addresses: each begins less than `size` bytes behind the first one. */
  lemma RegionPagesIff(address: Word, physical: Word, size: Word, v: nat)
    ensures v in RegionMap(address, physical, size)
            <==> address + size < 0x1_0000_0000 && address / 4096 <= v && 4096 * (v - address / 4096) < size
  {
    RegionAt(address, physical, size, v);
  }

  /** The guard under which map_region covers all the bytes it is asked to. */
  predicate CoversRegion(address: Word, size: Word) {
    size == 0 || (address + size < WORD_LIMIT && address % PAGE_SIZE + size <= PagesOf(size) * PAGE_SIZE)
  }

  /**
   * map_region maps ceil(size / 4096) pages from the page of its start, or none if the end of the range
   * wraps around. All bytes of the range are mapped exactly when the end does not wrap and the offset of
   * the start does not push it over a page boundary.
   */
  lemma RegionCoveredIff(address: Word, physical: Word, size: Word)
    ensures (forall b :: address <= b < address + size ==> b / PAGE_SIZE in RegionMap(address, physical, size))
            <==> CoversRegion(address, size)
    ensures address % PAGE_SIZE == 0 && address + size < WORD_LIMIT ==> CoversRegion(address, size)
    ensures address + size >= WORD_LIMIT ==> RegionMap(address, physical, size) == map[]
  {
    if !CoversRegion(address, size) {
      var last := address + size - 1;
      assert address <= last < address + size && last / PAGE_SIZE !in RegionMap(address, physical, size);
    }
  }

  /** Inside one mapped region, translation moves every byte by the same distance, as a sum of 32-bit words. */
  lemma RegionTranslates(m: map<nat, nat>, address: Word, physical: Word, size: Word, b: Word)
    requires address <= b < address + size && address % PAGE_SIZE == physical % PAGE_SIZE
    requires CoversRegion(address, size)
    ensures Translate(m + RegionMap(address, physical, size), b) == (physical + (b - address)) % WORD_LIMIT
  {
    hide RegionMap, CoversRegion, PagesOf, LoopBytes;
    RegionCoveredIff(address, physical, size);
    RegionAt(address, physical, size, b / PAGE_SIZE);
    SameDistance(address, physical, b);
  }

  lemma SameDistance(address: Word, physical: Word, b: Word)
    requires address <= b && address % PAGE_SIZE == physical % PAGE_SIZE
    ensures var pages := b / PAGE_SIZE - address / PAGE_SIZE;
            (physical / PAGE_SIZE + pages) % VIRTUAL_PAGES * PAGE_SIZE + b % PAGE_SIZE == (physical + (b - address)) % WORD_LIMIT
  {
    var pages := b / PAGE_SIZE - address / PAGE_SIZE;
    var q := physical / PAGE_SIZE + pages;
    assert physical + (b - address) == q * PAGE_SIZE + b % PAGE_SIZE;
    OffsetInPage(q * PAGE_SIZE + b % PAGE_SIZE);
    assert (q * PAGE_SIZE + b % PAGE_SIZE) / PAGE_SIZE == q;
  }
}
