/**
 * The Multiboot memory map (Multiboot Specification 0.6.96, section 3.3): a run of records in
 * memory, each preceded by its own size, walked by a cursor.
 */
module Multiboot {
  import opened Words

  const USABLE: nat := 1

  /** mmap_entry_t: `size` counts the bytes after the size field itself. */
  datatype MmapEntry = MmapEntry(size: Word, addr: nat, len: nat, kind: Word)

  /** memory_region_t */
  datatype Region = Region(addr: nat, len: nat, kind: nat)

  /** The fields of multiboot_info_t that the memory code reads. */
  datatype BootInfo = BootInfo(memLower: Word, memUpper: Word, mmapAddr: Word, mmapLength: Word)

  /** What memory reads as when an mmap_entry_t is read at an address. */
  type RecordMemory = nat -> MmapEntry

  function TotalMemory(info: BootInfo): Word {
    (info.memUpper + info.memLower) * 1024 % WORD_LIMIT
  }

  predicate IsUsable(entry: MmapEntry) {
    entry.kind == USABLE
  }

  /** The records fill [at, end) exactly, one after the other, and `end` is an address. */
  predicate Tiles(mem: RecordMemory, at: nat, records: seq<MmapEntry>, end: nat)
    decreases |records|
  {
    if records == [] then
      at == end && end < WORD_LIMIT
    else
      mem(at) == records[0] && Tiles(mem, at + records[0].size + 4, records[1..], end)
  }

  /** The type-1 records, in order. */
  function UsableRegions(records: seq<MmapEntry>): seq<Region> {
    if records == [] then []
    else if IsUsable(records[0]) then UsableRegion(records[0]) + UsableRegions(records[1..])
    else UsableRegions(records[1..])
  }

  lemma {:induction false} TilesEnd(mem: RecordMemory, at: nat, records: seq<MmapEntry>, end: nat)
    requires Tiles(mem, at, records, end)
    ensures at + 4 * |records| <= end < WORD_LIMIT
    decreases |records|
  {
    if records != [] {
      TilesEnd(mem, at + records[0].size + 4, records[1..], end);
    }
  }

  /** Memory has at most one reading as a memory map. */
  lemma {:induction false} TilingIsUnique(mem: RecordMemory, at: nat, end: nat,
                                          r: seq<MmapEntry>, s: seq<MmapEntry>)
    requires Tiles(mem, at, r, end) && Tiles(mem, at, s, end)
    ensures r == s
    decreases |r|
  {
    TilesEnd(mem, at, r, end);
    TilesEnd(mem, at, s, end);
    if r != [] && s != [] {
      TilingIsUnique(mem, at + r[0].size + 4, end, r[1..], s[1..]);
      assert r == [r[0]] + r[1..] && s == [s[0]] + s[1..];
    }
  }

  function UsableRegion(entry: MmapEntry): seq<Region> {
    if IsUsable(entry) then [Region(entry.addr, entry.len, entry.kind)] else []
  }

  lemma {:induction false} UsableAppend(a: seq<MmapEntry>, b: seq<MmapEntry>)
    ensures UsableRegions(a + b) == UsableRegions(a) + UsableRegions(b)
  {
    if a == [] {
      assert a + b == b;
    } else {
      UsableAppend(a[1..], b);
      assert (a + b)[1..] == a[1..] + b;
    }
  }

  /** One more record seen; what is collected still fits where everything fits. */
  lemma UsableStep(seen: seq<MmapEntry>, ahead: seq<MmapEntry>)
    requires ahead != []
    ensures UsableRegions(seen + [ahead[0]]) == UsableRegions(seen) + UsableRegion(ahead[0])
    ensures |UsableRegions(seen + [ahead[0]])| <= |UsableRegions(seen + ahead)|
    ensures seen + [ahead[0]] + ahead[1..] == seen + ahead
  {
    UsableAppend(seen, [ahead[0]]);
    assert seen + [ahead[0]] + ahead[1..] == seen + ahead;
    UsableAppend(seen + [ahead[0]], ahead[1..]);
  }

  lemma {:induction false} UsableAreUsable(records: seq<MmapEntry>)
    ensures forall r <- UsableRegions(records) :: r.kind == USABLE
  {
    if records != [] {
      UsableAreUsable(records[1..]);
    }
  }

  /** The usable regions are the records of kind 1, each once, in their order, field by field. */
  lemma {:induction false} UsableRegionsAre(records: seq<MmapEntry>) returns (at: seq<nat>)
    ensures |at| == |UsableRegions(records)|
    ensures forall k :: 0 <= k < |at| ==>
              && at[k] < |records| && records[at[k]].kind == 1
              && UsableRegions(records)[k] == Region(records[at[k]].addr, records[at[k]].len, 1)
    ensures forall j, k :: 0 <= j < k < |at| ==> at[j] < at[k]
    ensures forall i: nat :: i < |records| && records[i].kind == 1 ==> i in at
  {
    if records == [] {
      at := [];
    } else {
      var n := |records| - 1;
      var before, last := records[..n], records[n];
      var front := UsableRegionsAre(before);
      assert UsableRegions(records) == UsableRegions(before) + UsableRegion(last) by {
        assert records == before + [last];
        UsableAppend(before, [last]);
      }
      hide UsableRegions;
      assert forall i: nat :: i < n ==> before[i] == records[i];
      if last.kind == 1 {
        at := front + [n];
        assert at[|front|] == n;
        assert forall i <- front :: i in at;
      } else {
        at := front;
      }
    }
  }

  /**
   * multiboot_get_usable_regions, with the callback that multiboot_iterate_mmap makes for each
   * record written in the loop. The tiling is a ghost: memory determines it. The capacity of the
   * caller's array is a precondition because the code never looks at max_regions.
   */
  method GetUsableRegions(info: BootInfo, mem: RecordMemory, regions: array<Region>, ghost records: seq<MmapEntry>)
    returns (count: nat)
    requires Tiles(mem, info.mmapAddr, records, info.mmapAddr + info.mmapLength)
    requires |UsableRegions(records)| <= regions.Length
    modifies regions
    ensures count <= regions.Length && regions[..count] == UsableRegions(records)
  {
    count := 0;
    var cursor: nat := info.mmapAddr;
    var end := info.mmapAddr + info.mmapLength;
    ghost var seen, ahead := [], records;
    while cursor < end
      invariant records == seen + ahead
      invariant Tiles(mem, cursor, ahead, end)
      invariant count <= regions.Length && regions[..count] == UsableRegions(seen)
      decreases end - cursor
    {
      TilesEnd(mem, cursor, ahead, end);
      assert ahead != [];
      var entry := mem(cursor);
      assert entry == ahead[0];
      UsableStep(seen, ahead);
      if IsUsable(entry) {
        regions[count] := Region(entry.addr, entry.len, entry.kind);
        count := count + 1;
      }
      cursor := cursor + (entry.size + 4);
      seen, ahead := seen + [entry], ahead[1..];
    }
    TilesEnd(mem, cursor, ahead, end);
    assert seen == records;
  }

  /** The addresses at which the cursor walk reads a record. */
  function CursorStops(at: nat, records: seq<MmapEntry>): seq<nat>
    decreases |records|
  {
    if records == [] then [] else [at] + CursorStops(at + records[0].size + 4, records[1..])
  }

  /** The addresses at which print_memory_map, which steps by sizeof(mmap_entry_t), reads a record. */
  function StrideStops(at: nat, end: nat): seq<nat>
    decreases end - at
  {
    if at < end then [at] + StrideStops(at + 24, end) else []
  }

  /** Every record but the last has the size that the fixed stride assumes, the last no more. */
  predicate StandardSizes(records: seq<MmapEntry>) {
    forall i :: 0 <= i < |records| ==>
      if i < |records| - 1 then records[i].size == 20 else records[i].size <= 20
  }

  /** The fixed stride is 24 bytes, the size of mmap_entry_t, up to the end of the map. */
  lemma {:induction false} StrideStopsAre(at: nat, end: nat)
    ensures forall k :: 0 <= k < |StrideStops(at, end)| ==> StrideStops(at, end)[k] == at + 24 * k < end
    ensures at + 24 * |StrideStops(at, end)| >= end
    decreases end - at
  {
    if at < end {
      StrideStopsAre(at + 24, end);
    }
  }

  /** The fixed-stride walk reads the same records as the cursor walk exactly for standard sizes. */
  lemma {:induction false} StrideWalkAgrees(mem: RecordMemory, at: nat, records: seq<MmapEntry>, end: nat)
    requires Tiles(mem, at, records, end)
    ensures StrideStops(at, end) == CursorStops(at, records) <==> StandardSizes(records)
    decreases |records|
  {
    TilesEnd(mem, at, records, end);
    if records != [] {
      var rest := records[1..];
      var next := at + records[0].size + 4;
      StrideWalkAgrees(mem, next, rest, end);
      TilesEnd(mem, next, rest, end);
      assert StrideStops(at, end)[1..] == StrideStops(at + 24, end);
      assert CursorStops(at, records)[1..] == CursorStops(next, rest);
      if rest != [] {
        assert StandardSizes(records) <==> records[0].size == 20 && StandardSizes(rest) by {
          assert forall i :: 0 <= i < |rest| ==> rest[i] == records[i + 1];
        }
        assert CursorStops(next, rest)[0] == next;
        if records[0].size != 20 && at + 24 < end {
          assert StrideStops(at + 24, end)[0] == at + 24;
        }
      }
    }
  }
}
