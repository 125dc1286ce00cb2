/**
 * kernel/mem/pmm.cpp: the physical frame bitmap. A set bit is a used frame. The class works on
 * the words of the bitmap; its contracts speak of the set of used frames, for which the laws of
 * the allocator are proved at the end.
 */
module Pmm {
  import opened Words
  import opened Multiboot

  /** Frames from `first` up to, not including, `last`. */
  function FrameRange(first: nat, last: nat): set<nat> {
    set f: nat | first <= f < last && Within(first, f, last)
  }

  function FirstFrame(addr: nat): nat {
    addr / PAGE_SIZE
  }

  function EndFrame(addr: nat, size: nat): nat {
    (addr + size + PAGE_SIZE - 1) / PAGE_SIZE
  }

  /** The frames of a byte range as free_region and pmm_reserve_region see them: rounded outward. */
  function FramesOf(addr: nat, size: nat): set<nat> {
    FrameRange(FirstFrame(addr), EndFrame(addr, size))
  }

  function FramesOfAll(regions: seq<Region>): set<nat> {
    if regions == [] then
      {}
    else
      FramesOfAll(regions[..|regions| - 1])
      + FramesOf(regions[|regions| - 1].addr, regions[|regions| - 1].len)
  }

  /** The number of bitmap words, and the number of frames the allocator's scan covers. */
  function BitmapWords(maxFrames: nat): nat {
    (maxFrames + 31) / 32
  }

  function ScannedFrames(maxFrames: nat): nat {
    32 * (maxFrames / 32)
  }

  /** The scan covers all frames but the last few, which do not fill a word. */
  lemma ScannedAreWholeWords(maxFrames: nat)
    ensures ScannedFrames(maxFrames) == maxFrames - maxFrames % 32
    ensures ScannedFrames(maxFrames) <= maxFrames < ScannedFrames(maxFrames) + 32
    ensures 32 * BitmapWords(maxFrames) - 32 < maxFrames <= 32 * BitmapWords(maxFrames)
  {
  }

  // ---------------------------------------------------------------- bitmap words as a set

  predicate UsedIn(words: seq<Word>, f: nat)
    requires f < 32 * |words|
  {
    Bit(words[f / 32], f % 32)
  }

  function UsedFrames(words: seq<Word>): (s: set<nat>)
    ensures forall f: nat :: f in s <==> f < 32 * |words| && UsedIn(words, f)
  {
    set f: nat | 0 <= f < 32 * |words| && UsedIn(words, f) :: f
  }

  lemma WithBitIsWord(w: Word, j: nat)
    requires j < 32
    ensures WithBit(w, j) < WORD_LIMIT && WithoutBit(w, j) < WORD_LIMIT
  {
    Pow2Of32();
    if !Bit(w, j) {
      ClearBitFits(w, j, 32);
    }
  }

  lemma UsedAfterUpdate(words: seq<Word>, f: nat, w: Word)
    requires f < 32 * |words|
    ensures w == WithBit(words[f / 32], f % 32) ==> UsedFrames(words[f / 32 := w]) == UsedFrames(words) + {f}
    ensures w == WithoutBit(words[f / 32], f % 32) ==> UsedFrames(words[f / 32 := w]) == UsedFrames(words) - {f}
  {
    var after := words[f / 32 := w];
    forall g: nat | g < 32 * |words|
      ensures w == WithBit(words[f / 32], f % 32) ==> UsedIn(after, g) == (g == f || UsedIn(words, g))
      ensures w == WithoutBit(words[f / 32], f % 32) ==> UsedIn(after, g) == (g != f && UsedIn(words, g))
    {
      if g / 32 == f / 32 {
        BitOfWithBit(words[f / 32], f % 32, g % 32);
        BitOfWithoutBit(words[f / 32], f % 32, g % 32);
      }
    }
  }

  /** The first n words filled with ones: all of their frames are used. */
  lemma FilledWords(before: seq<Word>, after: seq<Word>, n: nat)
    requires n <= |before| == |after|
    requires forall i :: 0 <= i < |before| ==> after[i] == if i < n then 0xFFFF_FFFF else before[i]
    ensures UsedFrames(after) == UsedFrames(before) + FrameRange(0, 32 * n)
  {
    hide Bit;
    forall f: nat | f < 32 * |after|
      ensures UsedIn(after, f) == (UsedIn(before, f) || f < 32 * n)
    {
      if f < 32 * n {
        FullWordUsed(after, f / 32);
      }
    }
  }

  lemma BitAt(words: seq<Word>, i: nat, j: nat)
    requires i < |words| && j < 32
    ensures UsedIn(words, 32 * i + j) == Bit(words[i], j)
  {
  }

  lemma FullWordUsed(words: seq<Word>, i: nat)
    requires i < |words| && words[i] == 0xFFFF_FFFF
    ensures forall f: nat :: 32 * i <= f < 32 * i + 32 ==> UsedIn(words, f)
  {
    Pow2Of32();
    forall f: nat | 32 * i <= f < 32 * i + 32
      ensures UsedIn(words, f)
    {
      AllOnes(32, f % 32);
    }
  }

  // ---------------------------------------------------------------- the allocator

  /** init_pmm's result as a set: everything used, usable regions freed, four ranges reserved. */
  function InitialUsed(before: set<nat>, maxFrames: nat, usable: seq<Region>, reserved: seq<Region>): set<nat> {
    before + FrameRange(0, 32 * BitmapWords(maxFrames)) - FramesOfAll(usable) + FramesOfAll(reserved)
  }

  function AlignUp(addr: nat): nat {
    (addr + PAGE_SIZE - 1) / PAGE_SIZE * PAGE_SIZE
  }

  /** The ranges that init_pmm reserves: the first megabyte, the kernel, the memory map, the bitmap. */
  function ReservedRegions(info: BootInfo, kernelStart: nat, kernelEnd: nat): seq<Region>
    requires kernelStart <= kernelEnd
  {
    [ Region(0, PAGE_SIZE * 256, 0),
      Region(kernelStart, kernelEnd - kernelStart, 0),
      Region(info.mmapAddr, info.mmapLength, 0),
      Region(AlignUp(kernelEnd), 4 * BitmapWords(TotalMemory(info) / PAGE_SIZE), 0) ]
  }

  lemma FirstFrameReserved(info: BootInfo, kernelStart: nat, kernelEnd: nat)
    requires kernelStart <= kernelEnd
    ensures 0 in FramesOfAll(ReservedRegions(info, kernelStart, kernelEnd))
  {
    FourRegions({}, ReservedRegions(info, kernelStart, kernelEnd));
    assert Within(FirstFrame(0), 0, EndFrame(0, PAGE_SIZE * 256));
  }

  /** The end of the highest frame that a region touches. */
  predicate EndsBy(regions: seq<Region>, frames: nat) {
    forall r <- regions :: EndFrame(r.addr, r.len) <= frames
  }

  class FrameBitmap {
    /** Memory from the bitmap's address on; the bitmap proper is its first BitmapWords(maxFrames) words. */
    const bitmap: array<Word>
    const maxFrames: nat

    ghost predicate Valid()
      reads bitmap
    {
      && maxFrames < 0x10_0000
      && BitmapWords(maxFrames) <= bitmap.Length
      && 0 in Used()
    }

    /** Frames whose bit is set. */
    ghost function Used(): set<nat>
      reads bitmap
    {
      UsedFrames(bitmap[..])
    }

    /** init_pmm */
    constructor (memory: array<Word>, info: BootInfo, records: RecordMemory, kernelStart: nat, kernelEnd: nat,
                 ghost entries: seq<MmapEntry>)
      requires kernelStart <= kernelEnd
      requires Tiles(records, info.mmapAddr, entries, info.mmapAddr + info.mmapLength)
      requires |UsableRegions(entries)| <= 32
      requires BitmapWords(TotalMemory(info) / PAGE_SIZE) <= memory.Length
      requires EndsBy(UsableRegions(entries), 32 * memory.Length)
      requires EndsBy(ReservedRegions(info, kernelStart, kernelEnd), 32 * memory.Length)
      modifies memory
      ensures bitmap == memory && maxFrames == TotalMemory(info) / PAGE_SIZE
      ensures Valid()
      ensures Used() == InitialUsed(UsedFrames(old(memory[..])), maxFrames, UsableRegions(entries),
                                    ReservedRegions(info, kernelStart, kernelEnd))
    {
      bitmap := memory;
      maxFrames := TotalMemory(info) / PAGE_SIZE;
      new;
      FillBitmap();
      var regions := new Region[32](_ => Region(0, 0, 0));
      var count := GetUsableRegions(info, records, regions, entries);
      UsableAreUsable(entries);
      FreeUsable(regions, count);
      ReserveAll(info, kernelStart, kernelEnd);
      FirstFrameReserved(info, kernelStart, kernelEnd);
    }

    /** The loop of init_pmm over the usable regions. */
    method FreeUsable(regions: array<Region>, count: nat)
      requires count <= regions.Length
      requires EndsBy(regions[..count], 32 * bitmap.Length)
      requires forall r <- regions[..count] :: r.kind == USABLE
      modifies bitmap
      ensures Used() == old(Used()) - FramesOfAll(regions[..count])
    {
      for i := 0 to count
        invariant Used() == old(Used()) - FramesOfAll(regions[..i])
      {
        assert regions[..i + 1][..i] == regions[..i];
        assert regions[i] in regions[..count];
        if regions[i].kind == USABLE {
          FreeRegion(regions[i].addr, regions[i].len);
        }
      }
    }

    /** The four reservations that end init_pmm. */
    method ReserveAll(info: BootInfo, kernelStart: nat, kernelEnd: nat)
      requires kernelStart <= kernelEnd
      requires maxFrames == TotalMemory(info) / PAGE_SIZE
      requires EndsBy(ReservedRegions(info, kernelStart, kernelEnd), 32 * bitmap.Length)
      modifies bitmap
      ensures Used() == old(Used()) + FramesOfAll(ReservedRegions(info, kernelStart, kernelEnd))
    {
      ghost var r := ReservedRegions(info, kernelStart, kernelEnd);
      FourRegions(Used(), r);
      assert r[0] in r && r[1] in r && r[2] in r && r[3] in r;
      ReserveRegion(0, PAGE_SIZE * 256);
      ReserveRegion(kernelStart, kernelEnd - kernelStart);
      ReserveRegion(info.mmapAddr, info.mmapLength);
      ReserveRegion(AlignUp(kernelEnd), 4 * BitmapWords(maxFrames));
    }

    /** mset(bitmap, 0xFF, bitmap_size), a word at a time. */
    method FillBitmap()
      requires BitmapWords(maxFrames) <= bitmap.Length
      modifies bitmap
      ensures Used() == old(Used()) + FrameRange(0, 32 * BitmapWords(maxFrames))
    {
      ghost var before := bitmap[..];
      for i := 0 to BitmapWords(maxFrames)
        invariant forall k :: 0 <= k < i ==> bitmap[k] == 0xFFFF_FFFF
        invariant forall k :: i <= k < bitmap.Length ==> bitmap[k] == before[k]
      {
        bitmap[i] := 0xFFFF_FFFF;
      }
      FilledWords(before, bitmap[..], BitmapWords(maxFrames));
    }

    /** SET_BIT */
    method SetBit(f: nat)
      requires f < 32 * bitmap.Length
      modifies bitmap
      ensures Used() == old(Used()) + {f}
    {
      WithBitIsWord(bitmap[f / 32], f % 32);
      UsedAfterUpdate(bitmap[..], f, WithBit(bitmap[f / 32], f % 32));
      ghost var before := bitmap[..];
      bitmap[f / 32] := WithBit(bitmap[f / 32], f % 32);
      assert bitmap[..] == before[f / 32 := bitmap[f / 32]];
    }

    /** CLEAR_BIT */
    method ClearBit(f: nat)
      requires f < 32 * bitmap.Length
      modifies bitmap
      ensures Used() == old(Used()) - {f}
    {
      WithBitIsWord(bitmap[f / 32], f % 32);
      UsedAfterUpdate(bitmap[..], f, WithoutBit(bitmap[f / 32], f % 32));
      ghost var before := bitmap[..];
      bitmap[f / 32] := WithoutBit(bitmap[f / 32], f % 32);
      assert bitmap[..] == before[f / 32 := bitmap[f / 32]];
    }

    method FreeRegion(addr: nat, size: nat)
      requires EndFrame(addr, size) <= 32 * bitmap.Length
      modifies bitmap
      ensures Used() == old(Used()) - FramesOf(addr, size)
    {
      var i, end := FirstFrame(addr), EndFrame(addr, size);
      while i < end
        invariant FirstFrame(addr) <= i
        invariant i <= end || i == FirstFrame(addr)
        invariant Used() == old(Used()) - FrameRange(FirstFrame(addr), i)
      {
        ClearBit(i);
        i := i + 1;
      }
    }

    /** pmm_reserve_region */
    method ReserveRegion(addr: nat, size: nat)
      requires EndFrame(addr, size) <= 32 * bitmap.Length
      modifies bitmap
      ensures Used() == old(Used()) + FramesOf(addr, size)
    {
      var i, end := FirstFrame(addr), EndFrame(addr, size);
      while i < end
        invariant FirstFrame(addr) <= i
        invariant i <= end || i == FirstFrame(addr)
        invariant Used() == old(Used()) + FrameRange(FirstFrame(addr), i)
      {
        SetBit(i);
        i := i + 1;
      }
    }

    /** pmm_alloc_page: the address of the lowest free frame that the scan covers, or 0. */
    method AllocPage() returns (addr: Word)
      requires Valid()
      modifies bitmap
      ensures Valid()
      ensures addr % PAGE_SIZE == 0
      ensures addr / PAGE_SIZE == LowestFree(old(Used()), ScannedFrames(maxFrames))
      ensures if addr == 0 then
                forall f: nat :: f < maxFrames - maxFrames % 32 ==> f in old(Used())
              else
                && addr / 4096 < maxFrames - maxFrames % 32 && addr / 4096 !in old(Used())
                && forall f: nat :: f < addr / 4096 ==> f in old(Used())
      ensures Used() == old(Used()) + {addr / PAGE_SIZE}
    {
      hide Bit, WithBit, LowestFree;
      ghost var words := bitmap[..];
      for i := 0 to maxFrames / 32
        invariant bitmap[..] == words
        invariant forall f: nat :: f < 32 * i ==> UsedIn(words, f)
      {
        if bitmap[i] != 0xFFFF_FFFF {
          for j := 0 to 32
            invariant bitmap[..] == words
            invariant forall f: nat :: f < 32 * i + j ==> UsedIn(words, f)
          {
            if !Bit(bitmap[i], j) {
              BitAt(words, i, j);
              LowestFreeIs(UsedFrames(words), ScannedFrames(maxFrames), 32 * i + j);
              ScannedAreWholeWords(maxFrames);
              SetBit(32 * i + j);
              addr := (i * 32 + j) * PAGE_SIZE;
              return;
            }
            BitAt(words, i, j);
          }
        } else {
          FullWordUsed(words, i);
        }
      }
      NoneFree(UsedFrames(words), ScannedFrames(maxFrames));
      ScannedAreWholeWords(maxFrames);
      addr := 0;
      assert Used() == Used() + {0};
    }

    /** pmm_free_page: an address that cannot have been handed out is ignored. */
    method FreePage(addr: nat)
      requires Valid()
      modifies bitmap
      ensures Valid()
      ensures Used() == if Freeable(addr, maxFrames) then old(Used()) - {addr / PAGE_SIZE} else old(Used())
      ensures Used() == if 0 < addr < 4096 * maxFrames && addr % 4096 == 0 then old(Used()) - {addr / 4096} else old(Used())
    {
      if addr == 0 || addr >= maxFrames * PAGE_SIZE || addr % PAGE_SIZE != 0 {
        return;
      }
      ClearBit(addr / PAGE_SIZE);
    }
  }

  predicate Freeable(addr: nat, maxFrames: nat) {
    addr != 0 && addr < maxFrames * PAGE_SIZE && addr % PAGE_SIZE == 0
  }

  // ---------------------------------------------------------------- laws of the frame set

  /** The lowest frame below n that is not used; 0, which is never handed out, when there is none. */
  function LowestFree(used: set<nat>, n: nat): (f: nat)
    ensures f < n || f == 0
    ensures f != 0 ==> f !in used && FrameRange(0, f) <= used
    ensures 0 in used ==> (f == 0 <==> FrameRange(0, n) <= used)
  {
    if n == 0 then
      0
    else
      var f := LowestFree(used, n - 1);
      if f == 0 && 0 in used && n - 1 !in used then n - 1 else f
  }

  lemma LowestFreeIs(used: set<nat>, n: nat, f: nat)
    requires 0 in used && f < n && f !in used && FrameRange(0, f) <= used
    ensures LowestFree(used, n) == f
  {
  }

  lemma NoneFree(used: set<nat>, n: nat)
    requires 0 in used && FrameRange(0, n) <= used
    ensures LowestFree(used, n) == 0
  {
  }

  lemma FourRegions(used: set<nat>, r: seq<Region>)
    requires |r| == 4
    ensures used + FramesOfAll(r) == used + FramesOf(r[0].addr, r[0].len) + FramesOf(r[1].addr, r[1].len)
                                     + FramesOf(r[2].addr, r[2].len) + FramesOf(r[3].addr, r[3].len)
  {
    assert r[..3][..2] == r[..2] && r[..2][..1] == r[..1] && r[..1][..0] == [];
    assert FramesOfAll(r[..1]) == FramesOf(r[0].addr, r[0].len);
    assert FramesOfAll(r[..2]) == FramesOfAll(r[..1]) + FramesOf(r[1].addr, r[1].len);
    assert FramesOfAll(r[..3]) == FramesOfAll(r[..2]) + FramesOf(r[2].addr, r[2].len);
  }
}
