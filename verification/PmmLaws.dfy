/**
 * What the frame allocator promises: its initial state is exact, what it hands out stays out, and
 * what is given back is the next to go out again.
 */
module PmmLaws {
  import opened Words
  import opened Multiboot
  import opened Pmm

  // ---------------------------------------------------------------- the state after init_pmm

  predicate InSome(f: nat, regions: seq<Region>) {
    exists r <- regions :: f in FramesOf(r.addr, r.len)
  }

  lemma {:induction false} InSomeIsMembership(f: nat, regions: seq<Region>)
    ensures f in FramesOfAll(regions) <==> InSome(f, regions)
  {
    if regions != [] {
      var last := regions[|regions| - 1];
      var front := regions[..|regions| - 1];
      InSomeIsMembership(f, front);
      assert regions == front + [last];
      assert InSome(f, regions) <==> InSome(f, front) || f in FramesOf(last.addr, last.len) by {
        assert forall r :: r in regions <==> r in front || r == last;
      }
    }
  }

  /**
   * A frame below max_frames is free after init_pmm exactly when some usable region touches it
   * and no reserved range does, whatever the number, order and overlap of the regions.
   */
  lemma InitialStateIsExact(before: set<nat>, maxFrames: nat, usable: seq<Region>, reserved: seq<Region>, f: nat)
    requires f < maxFrames
    ensures f !in InitialUsed(before, maxFrames, usable, reserved)
            <==> InSome(f, usable) && !InSome(f, reserved)
  {
    InSomeIsMembership(f, usable);
    InSomeIsMembership(f, reserved);
    assert Within(0, f, 32 * BitmapWords(maxFrames));
  }

  /** A range touches a frame exactly when it starts before the end of the frame and ends behind its start. */
  lemma FrameOfRangeIff(addr: nat, size: nat, f: nat)
    ensures f in FramesOf(addr, size) <==> 4096 * f < addr + size && addr < 4096 * f + 4096
  {
    hide FrameRange;
    FrameRangeIff(FirstFrame(addr), EndFrame(addr, size), f);
  }

  lemma FrameRangeIff(first: nat, last: nat, f: nat)
    ensures f in FrameRange(first, last) <==> first <= f < last
  {
    assert first <= f < last ==> Within(first, f, last);
  }

  /** max_frames, from the kilobytes below and above the first megabyte */
  function MaxFrames(info: BootInfo): nat {
    (info.memUpper + info.memLower) * 1024 % 0x1_0000_0000 / 4096
  }

  /**
   * The frames that must never be handed out: the first megabyte, and the pages of the kernel image, of the
   * memory map, and of the bitmap, which starts on the first page boundary at or behind the kernel's end.
   */
  predicate Reserved(info: BootInfo, kernelStart: nat, kernelEnd: nat, f: nat) {
    var bitmap := (kernelEnd + 4095) / 4096 * 4096;
    || f < 256
    || (4096 * f < kernelEnd && kernelStart < 4096 * f + 4096)
    || (4096 * f < info.mmapAddr + info.mmapLength && info.mmapAddr < 4096 * f + 4096)
    || (4096 * f < bitmap + 4 * ((MaxFrames(info) + 31) / 32) && bitmap < 4096 * f + 4096)
  }

  /** These are the frames of the four ranges that init_pmm reserves. */
  lemma ReservedIff(info: BootInfo, kernelStart: nat, kernelEnd: nat, f: nat)
    requires kernelStart <= kernelEnd
    ensures f in FramesOfAll(ReservedRegions(info, kernelStart, kernelEnd)) <==> Reserved(info, kernelStart, kernelEnd, f)
  {
    hide FramesOf;
    var r := ReservedRegions(info, kernelStart, kernelEnd);
    FourRegions({}, r);
    FrameOfRangeIff(r[0].addr, r[0].len, f);
    FrameOfRangeIff(r[1].addr, r[1].len, f);
    FrameOfRangeIff(r[2].addr, r[2].len, f);
    FrameOfRangeIff(r[3].addr, r[3].len, f);
  }

  /**
   * A frame below max_frames is free after init_pmm exactly when some usable region touches it and it is none
   * of the reserved ones.
   */
  lemma FreeAfterInitIff(before: set<nat>, info: BootInfo, kernelStart: nat, kernelEnd: nat, usable: seq<Region>, f: nat)
    requires kernelStart <= kernelEnd && f < MaxFrames(info)
    ensures f !in InitialUsed(before, TotalMemory(info) / PAGE_SIZE, usable, ReservedRegions(info, kernelStart, kernelEnd))
            <==> (exists r <- usable :: 4096 * f < r.addr + r.len && r.addr < 4096 * f + 4096)
                 && !Reserved(info, kernelStart, kernelEnd, f)
  {
    hide FramesOf, Reserved, ReservedRegions;
    var reserved := ReservedRegions(info, kernelStart, kernelEnd);
    InitialStateIsExact(before, TotalMemory(info) / PAGE_SIZE, usable, reserved, f);
    ReservedIff(info, kernelStart, kernelEnd, f);
    InSomeIsMembership(f, reserved);
    forall r <- usable
      ensures f in FramesOf(r.addr, r.len) <==> 4096 * f < r.addr + r.len && r.addr < 4096 * f + 4096
    {
      FrameOfRangeIff(r.addr, r.len, f);
    }
  }

  /** Every range that is not empty ends inside the bitmap. */
  predicate InsideBitmap(regions: seq<Region>, maxFrames: nat) {
    forall r <- regions :: FirstFrame(r.addr) < EndFrame(r.addr, r.len)
                           ==> EndFrame(r.addr, r.len) <= 32 * BitmapWords(maxFrames)
  }

  /** Whether init_pmm leaves the memory behind the bitmap as it was, whatever it held. */
  ghost predicate LeavesRestAlone(maxFrames: nat, usable: seq<Region>, reserved: seq<Region>) {
    forall before: set<nat>, f: nat | f >= 32 * BitmapWords(maxFrames) ::
      f in InitialUsed(before, maxFrames, usable, reserved) <==> f in before
  }

  lemma LastFrameTouched(r: Region)
    requires FirstFrame(r.addr) < EndFrame(r.addr, r.len)
    ensures EndFrame(r.addr, r.len) - 1 in FramesOf(r.addr, r.len)
  {
    assert Within(FirstFrame(r.addr), EndFrame(r.addr, r.len) - 1, EndFrame(r.addr, r.len));
  }

  /** free_region and pmm_reserve_region check no bound: init_pmm keeps to its bitmap exactly when every range does. */
  lemma InitStaysInsideIff(maxFrames: nat, usable: seq<Region>, reserved: seq<Region>)
    ensures LeavesRestAlone(maxFrames, usable, reserved)
            <==> InsideBitmap(usable, maxFrames) && InsideBitmap(reserved, maxFrames)
  {
    var limit := 32 * BitmapWords(maxFrames);
    if InsideBitmap(usable, maxFrames) && InsideBitmap(reserved, maxFrames) {
      forall before: set<nat>, f: nat | f >= limit
        ensures f in InitialUsed(before, maxFrames, usable, reserved) <==> f in before
      {
        InSomeIsMembership(f, usable);
        InSomeIsMembership(f, reserved);
        assert !InSome(f, usable) && !InSome(f, reserved);
      }
    }
    forall r | (r in usable || r in reserved) && FirstFrame(r.addr) < EndFrame(r.addr, r.len)
               && EndFrame(r.addr, r.len) > limit
      ensures !LeavesRestAlone(maxFrames, usable, reserved)
    {
      var f := EndFrame(r.addr, r.len) - 1;
      LastFrameTouched(r);
      InSomeIsMembership(f, usable);
      InSomeIsMembership(f, reserved);
      if InSome(f, reserved) {
        assert f !in {} && f in InitialUsed({}, maxFrames, usable, reserved);
      } else {
        assert f in {f} && f !in InitialUsed({f}, maxFrames, usable, reserved);
      }
    }
  }

  /**
   * On every machine that follows the specification (mem_lower at most 640, and usable memory up to
   * mem_upper kilobytes past the first megabyte at least) some usable region reaches past the bitmap: the
   * two counts added up by multiboot_get_total_memory leave out the hole below the first megabyte.
   */
  lemma ConformingMapLeavesBitmap(info: BootInfo, usable: seq<Region>, reserved: seq<Region>, r: Region)
    requires info.memLower <= 640 && 0 < info.memUpper
    requires (info.memUpper + info.memLower) * 1024 < WORD_LIMIT
    requires r in usable && r.len > 0 && r.addr + r.len >= 0x10_0000 + info.memUpper * 1024
    ensures !LeavesRestAlone(TotalMemory(info) / PAGE_SIZE, usable, reserved)
  {
    InitStaysInsideIff(TotalMemory(info) / PAGE_SIZE, usable, reserved);
    assert TotalMemory(info) == (info.memUpper + info.memLower) * 1024;
    assert TotalMemory(info) / PAGE_SIZE == (info.memUpper + info.memLower) / 4;
    assert EndFrame(r.addr, r.len) >= 256 + info.memUpper / 4;
    assert FirstFrame(r.addr) < EndFrame(r.addr, r.len);
  }

  // ---------------------------------------------------------------- runs

  datatype Request = Alloc | Free(addr: Word)

  /** The used frames, and those among them that were handed out and not given back. */
  datatype Frames = Frames(used: set<nat>, held: set<nat>)

  function Serve(s: Frames, maxFrames: nat, q: Request): Frames {
    match q
    case Alloc =>
      var f := LowestFree(s.used, ScannedFrames(maxFrames));
      Frames(s.used + {f}, if f == 0 then s.held else s.held + {f})
    case Free(addr) =>
      if Freeable(addr, maxFrames) then
        Frames(s.used - {addr / PAGE_SIZE}, s.held - {addr / PAGE_SIZE})
      else
        s
  }

  function ServeAll(s: Frames, maxFrames: nat, qs: seq<Request>): Frames
    decreases |qs|
  {
    if qs == [] then s else ServeAll(Serve(s, maxFrames, qs[0]), maxFrames, qs[1..])
  }

  predicate Consistent(s: Frames) {
    0 in s.used && s.held <= s.used && 0 !in s.held
  }

  /**
   * Whatever is requested and given back, frame 0 stays reserved, no frame still held is handed out
   * again, and an allocation reports failure exactly when every scanned frame is used.
   */
  lemma {:induction false} HeldFramesStayOut(s: Frames, maxFrames: nat, qs: seq<Request>)
    requires Consistent(s)
    ensures var end := ServeAll(s, maxFrames, qs);
            var next := LowestFree(end.used, ScannedFrames(maxFrames));
            && Consistent(end)
            && next !in end.held
            && (next == 0 <==> FrameRange(0, ScannedFrames(maxFrames)) <= end.used)
    decreases |qs|
  {
    if qs != [] {
      HeldFramesStayOut(Serve(s, maxFrames, qs[0]), maxFrames, qs[1..]);
    }
  }

  /** The guards of pmm_free_page let every allocated address through, and freeing it undoes the allocation. */
  lemma FreeUndoesAlloc(s: Frames, maxFrames: nat)
    requires Consistent(s) && maxFrames < 0x10_0000
    ensures var f := LowestFree(s.used, ScannedFrames(maxFrames));
            f != 0 ==>
              && f * PAGE_SIZE < WORD_LIMIT
              && Freeable(f * PAGE_SIZE, maxFrames)
              && Serve(Serve(s, maxFrames, Alloc), maxFrames, Free(f * PAGE_SIZE)) == s
  {
    var f := LowestFree(s.used, ScannedFrames(maxFrames));
    if f != 0 {
      assert f * PAGE_SIZE / PAGE_SIZE == f;
      assert s.used + {f} - {f} == s.used && s.held + {f} - {f} == s.held;
    }
  }

  /** Whether q gives back no frame below f. */
  predicate KeepsBelow(q: Request, f: nat) {
    q.Free? ==> q.addr / PAGE_SIZE >= f
  }

  lemma {:induction false} LowFramesStayUsed(s: Frames, maxFrames: nat, qs: seq<Request>, f: nat)
    requires FrameRange(0, f) <= s.used
    requires forall q <- qs :: KeepsBelow(q, f)
    ensures FrameRange(0, f) <= ServeAll(s, maxFrames, qs).used
    decreases |qs|
  {
    if qs != [] {
      assert KeepsBelow(qs[0], f);
      LowFramesStayUsed(Serve(s, maxFrames, qs[0]), maxFrames, qs[1..], f);
    }
  }

  /**
   * The kernel's own allocator test, generalised: a frame that was handed out, and is given back after
   * any requests that give back none below it, is the next one to be handed out.
   */
  lemma FreedFrameIsReused(s: Frames, maxFrames: nat, qs: seq<Request>)
    requires Consistent(s) && maxFrames < 0x10_0000
    requires forall q <- qs :: KeepsBelow(q, LowestFree(s.used, ScannedFrames(maxFrames)))
    ensures var f := LowestFree(s.used, ScannedFrames(maxFrames));
            f != 0 ==>
              var later := ServeAll(s, maxFrames, [Alloc] + qs);
              LowestFree(Serve(later, maxFrames, Free(f * PAGE_SIZE)).used, ScannedFrames(maxFrames)) == f
  {
    var f := LowestFree(s.used, ScannedFrames(maxFrames));
    if f != 0 {
      FreeUndoesAlloc(s, maxFrames);
      LowFramesStayUsed(s, maxFrames, [Alloc] + qs, f);
      HeldFramesStayOut(s, maxFrames, [Alloc] + qs);
      assert f * PAGE_SIZE / PAGE_SIZE == f;
      var later := ServeAll(s, maxFrames, [Alloc] + qs);
      assert FrameRange(0, f) <= later.used - {f};
      LowestFreeIs(later.used - {f}, ScannedFrames(maxFrames), f);
    }
  }
}
