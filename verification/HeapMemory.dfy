/**
 * The heap's memory: the words of its pages seen through the frames behind them, and the block
 * headers written in those words.
 */
module HeapMemory {
  import opened Words
  import Pmm
  import PageTables
  import opened Vmm
  import opened Blocks

  // ---------------------------------------------------------------- pages of frames as one range of words

  predicate Distinct(frames: seq<nat>) {
    forall i, j :: 0 <= i < j < |frames| ==> frames[i] != frames[j]
  }

  function FrameSet(frames: seq<nat>): set<nat> {
    set f | f in frames
  }

  /** Physical memory holds every frame. */
  predicate Present(ram: seq<Word>, frames: seq<nat>) {
    forall f <- frames :: (f + 1) * PageTables.ENTRIES <= |ram|
  }

  /** A word address within the pages from `base` on that `frames` back. */
  predicate InHeap(frames: seq<nat>, base: nat, a: nat) {
    base <= a < base + |frames| * PAGE_SIZE && a % 4 == 0
  }

  /** The word of physical memory behind address a. */
  function CellOf(frames: seq<nat>, base: nat, a: nat): nat
    requires InHeap(frames, base, a)
  {
    PageTables.Cell(frames[(a - base) / PAGE_SIZE], (a - base) % PAGE_SIZE / 4)
  }

  lemma CellInside(ram: seq<Word>, frames: seq<nat>, base: nat, a: nat)
    requires Present(ram, frames) && InHeap(frames, base, a)
    ensures CellOf(frames, base, a) < |ram|
  {
    assert frames[(a - base) / PAGE_SIZE] in frames;
  }

  /** What the heap reads at each of its addresses. */
  function View(ram: seq<Word>, frames: seq<nat>, base: nat): map<nat, Word>
    requires Present(ram, frames)
  {
    map a: nat | base <= a < base + |frames| * PAGE_SIZE && InHeap(frames, base, a)
      :: (CellInside(ram, frames, base, a); ram[CellOf(frames, base, a)])
  }

  lemma ViewDomain(ram: seq<Word>, frames: seq<nat>, base: nat)
    requires Present(ram, frames)
    ensures forall a: nat :: a in View(ram, frames, base) <==> InHeap(frames, base, a)
  {
  }

  /** Different addresses are different words, because the frames are distinct. */
  lemma CellsApart(frames: seq<nat>, base: nat, a: nat, b: nat)
    requires Distinct(frames) && base % 4 == 0
    requires InHeap(frames, base, a) && InHeap(frames, base, b) && a != b
    ensures CellOf(frames, base, a) != CellOf(frames, base, b)
  {
    var i, j := (a - base) / PAGE_SIZE, (b - base) / PAGE_SIZE;
    if i == j {
      assert (a - base) % PAGE_SIZE / 4 != (b - base) % PAGE_SIZE / 4;
    } else {
      assert frames[i] != frames[j];
    }
  }

  lemma StoreView(ram: seq<Word>, frames: seq<nat>, base: nat, a: nat, w: Word)
    requires Present(ram, frames) && Distinct(frames) && base % 4 == 0 && InHeap(frames, base, a)
    requires CellOf(frames, base, a) < |ram|
    ensures View(ram[CellOf(frames, base, a) := w], frames, base) == View(ram, frames, base)[a := w]
  {
    var after := ram[CellOf(frames, base, a) := w];
    forall b: nat | InHeap(frames, base, b)
      ensures CellOf(frames, base, b) < |ram|
      ensures after[CellOf(frames, base, b)] == if b == a then w else ram[CellOf(frames, base, b)]
    {
      CellInside(ram, frames, base, b);
      if b != a {
        CellsApart(frames, base, a, b);
      }
    }
  }

  /** Frames that keep their contents keep the view; more frames only extend it. */
  lemma ViewGrows(ram: seq<Word>, after: seq<Word>, frames: seq<nat>, more: seq<nat>, base: nat)
    requires Present(ram, frames) && |after| == |ram| && Present(after, frames + more)
    requires forall f <- frames :: forall k :: f * PageTables.ENTRIES <= k < (f + 1) * PageTables.ENTRIES ==> after[k] == ram[k]
    ensures Extends(View(ram, frames, base), View(after, frames + more, base))
  {
    forall a: nat | InHeap(frames, base, a)
      ensures InHeap(frames + more, base, a) && CellOf(frames + more, base, a) == CellOf(frames, base, a)
      ensures CellOf(frames, base, a) < |ram| && after[CellOf(frames, base, a)] == ram[CellOf(frames, base, a)]
    {
      CellInside(ram, frames, base, a);
      assert frames[(a - base) / PAGE_SIZE] in frames;
    }
  }

  /** At most `high - low` different frames lie between low and high. */
  lemma {:induction false} DistinctFramesFit(frames: seq<nat>, low: nat, high: nat)
    requires Distinct(frames) && low <= high && forall f <- frames :: low <= f < high
    ensures |frames| <= high - low
    decreases high
  {
    if low == high {
      assert forall i :: 0 <= i < |frames| ==> frames[i] in frames;
    } else if high - 1 in frames {
      var i :| 0 <= i < |frames| && frames[i] == high - 1;
      var rest := frames[..i] + frames[i + 1..];
      forall f | f in rest
        ensures low <= f < high - 1
      {
        var k :| 0 <= k < |rest| && rest[k] == f;
        var l := if k < i then k else k + 1;
        assert frames[l] == f && frames[l] in frames && frames[l] != frames[i];
      }
      DistinctFramesFit(rest, low, high - 1);
    } else {
      DistinctFramesFit(frames, low, high - 1);
    }
  }

  /** Page k from `base` is mapped to frame k. */
  predicate PageMapped(mapping: map<nat, nat>, base: nat, frames: seq<nat>, k: nat)
    requires k < |frames|
  {
    base / PAGE_SIZE + k in mapping && mapping[base / PAGE_SIZE + k] == frames[k]
  }

  /**
   * The pages from `base` on are mapped to the frames, in order: distinct used frames that hold no page
   * table. The first page is the direct image of its frame, and no frame below that one is free.
   */
  ghost predicate BackedBy(m: Memory, mapping: map<nat, nat>, base: nat, frames: seq<nat>) {
    && |frames| > 0 && base == HIGH_MEMORY_BASE + frames[0] * PAGE_SIZE
    && Distinct(frames)
    && (forall f <- frames :: DataFrame(m, f) && frames[0] <= f)
    && Pmm.FrameRange(0, frames[0]) <= m.used
    && (forall k :: 0 <= k < |frames| ==> PageMapped(mapping, base, frames, k))
  }

  lemma BackedIsPresent(m: Memory, mapping: map<nat, nat>, base: nat, frames: seq<nat>)
    requires BackedBy(m, mapping, base, frames)
    ensures Present(m.ram, frames) && forall f <- frames :: DataFrame(m, f)
  {
    assert forall f <- frames :: DataFrame(m, f);
  }

  /** However long the heap has grown, its pages end below the image of the last frame. */
  lemma HeapFitsMemory(m: Memory, mapping: map<nat, nat>, base: nat, frames: seq<nat>, maxFrames: nat)
    requires BackedBy(m, mapping, base, frames) && |m.ram| == maxFrames * PageTables.ENTRIES
    ensures base + |frames| * PAGE_SIZE <= HIGH_MEMORY_BASE + maxFrames * PAGE_SIZE
  {
    assert forall f <- frames :: DataFrame(m, f);
    assert frames[0] in frames;
    DistinctFramesFit(frames, frames[0], maxFrames);
  }

  /** The page walk finds the word of a heap address. */
  lemma TranslateFindsCell(mapping: map<nat, nat>, base: nat, frames: seq<nat>, a: Word)
    requires base % PAGE_SIZE == 0 && InHeap(frames, base, a)
    requires PageMapped(mapping, base, frames, (a - base) / PAGE_SIZE)
    ensures PageTables.Translate(mapping, a) / 4 == CellOf(frames, base, a)
  {
    assert a / PAGE_SIZE == base / PAGE_SIZE + (a - base) / PAGE_SIZE;
    assert a % PAGE_SIZE == (a - base) % PAGE_SIZE;
  }

  /** Memory after the word behind heap address a has been set to w. */
  function Stored(m: Memory, frames: seq<nat>, base: nat, a: nat, w: Word): Memory
    requires Present(m.ram, frames) && InHeap(frames, base, a)
  {
    CellInside(m.ram, frames, base, a);
    m.(ram := m.ram[CellOf(frames, base, a) := w])
  }

  /** A store through a heap address changes that one word of the view. */
  lemma StoreLaws(m: Memory, mapping: map<nat, nat>, base: nat, frames: seq<nat>, a: nat, w: Word)
    requires BackedBy(m, mapping, base, frames) && InHeap(frames, base, a)
    ensures Present(m.ram, frames)
    ensures var n := Stored(m, frames, base, a, w);
            && Present(n.ram, frames)
            && BackedBy(n, mapping, base, frames)
            && View(n.ram, frames, base) == View(m.ram, frames, base)[a := w]
  {
    hide View, CellOf;
    BackedIsPresent(m, mapping, base, frames);
    CellInside(m.ram, frames, base, a);
    ImageIsAligned(frames[0]);
    StoreView(m.ram, frames, base, a, w);
    assert forall g <- frames :: DataFrame(m, g) && DataFrame(Stored(m, frames, base, a, w), g);
  }

  lemma ImageIsAligned(frame: nat)
    ensures (HIGH_MEMORY_BASE + frame * PAGE_SIZE) % PAGE_SIZE == 0 && (HIGH_MEMORY_BASE + frame * PAGE_SIZE) % 4 == 0
  {
    assert HIGH_MEMORY_BASE + frame * PAGE_SIZE == 4 * (HIGH_MEMORY_BASE / 4 + frame * (PAGE_SIZE / 4));
  }

  /** The first frame of the heap, just allocated and direct-mapped. */
  lemma FirstPageBacked(m: Memory, mapping: map<nat, nat>, f: nat)
    requires DataFrame(m.(used := m.used + {f}), f) && Pmm.FrameRange(0, f) <= m.used
    requires HIGH_MEMORY_BASE / PAGE_SIZE + f in mapping && mapping[HIGH_MEMORY_BASE / PAGE_SIZE + f] == f
    ensures BackedBy(m.(used := m.used + {f}), mapping, HIGH_MEMORY_BASE + f * PAGE_SIZE, [f])
  {
    assert PageMapped(mapping, HIGH_MEMORY_BASE + f * PAGE_SIZE, [f], 0);
  }

  /** Backing outlives any change that keeps data frames and leaves the heap's pages mapped as they are. */
  lemma BackingKept(m: Memory, mapping: map<nat, nat>, base: nat, frames: seq<nat>, n: Memory, after: map<nat, nat>)
    requires BackedBy(m, mapping, base, frames) && Keeps(m, n)
    requires forall v <- mapping :: base / PAGE_SIZE <= v < base / PAGE_SIZE + |frames| ==> v in after && after[v] == mapping[v]
    ensures BackedBy(n, after, base, frames)
    ensures Present(m.ram, frames) && Present(n.ram, frames)
    ensures View(n.ram, frames, base) == View(m.ram, frames, base)
  {
    assert forall f <- frames :: DataFrame(n, f) && SameContents(m, n, f) by {
      assert forall f <- frames :: DataFrame(m, f);
    }
    forall k | 0 <= k < |frames|
      ensures PageMapped(after, base, frames, k)
    {
      assert PageMapped(mapping, base, frames, k);
    }
    assert frames + [] == frames;
    ViewGrows(m.ram, n.ram, frames, [], base);
  }

  /**
   * Frames that others use for data stay theirs: no frame goes out of use or becomes a table, and the heap's
   * new frames were free.
   */
  ghost predicate SparesHeld(m: Memory, n: Memory, before: seq<nat>, after: seq<nat>) {
    && m.used <= n.used && before <= after
    && (forall f: nat :: DataFrame(m, f) ==> DataFrame(n, f))
    && forall f <- after :: f in before || f !in m.used
  }

  lemma SparesHeldThen(a: Memory, b: Memory, c: Memory, x: seq<nat>, y: seq<nat>, z: seq<nat>)
    requires SparesHeld(a, b, x, y) && SparesHeld(b, c, y, z)
    ensures SparesHeld(a, c, x, z)
  {
  }

  lemma SparesHeldDespiteStores(a: Memory, b: Memory, c: Memory, x: seq<nat>, y: seq<nat>)
    requires SparesHeld(a, b, x, y) && c.used == b.used && c.dir == b.dir && |c.ram| == |b.ram|
    ensures SparesHeld(a, c, x, y)
  {
    assert forall f: nat :: DataFrame(b, f) ==> DataFrame(c, f);
  }

  lemma KeepsSparesHeld(a: Memory, b: Memory, x: seq<nat>)
    requires Keeps(a, b)
    ensures SparesHeld(a, b, x, x)
    ensures forall f: nat :: f !in a.used ==> SparesHeld(a, b, x, x + [f])
  {
  }

  lemma MoreUsedKeeps(m: Memory, f: nat)
    ensures Keeps(m, m.(used := m.used + {f}))
  {
  }

  /** A page for the heap, and perhaps a frame for the table that maps it. */
  lemma PageTaken(a: Memory, b: Memory, c: Memory, frames: seq<nat>, f: nat)
    requires Takes(a, b, {f}) && Takes(b, c, {})
    ensures Takes(a, c, FrameSet(frames + [f]))
  {
  }

  lemma NothingTaken(a: Memory, b: Memory, frames: seq<nat>)
    requires Takes(a, b, {})
    ensures Takes(a, b, FrameSet(frames))
  {
  }

  lemma PagesTaken(a: Memory, b: Memory, c: Memory, before: seq<nat>, frames: seq<nat>)
    requires Takes(a, b, FrameSet(before)) && Takes(b, c, FrameSet(frames)) && before <= frames
    ensures Takes(a, c, FrameSet(frames))
  {
    assert FrameSet(before) <= FrameSet(frames) by {
      assert forall i :: 0 <= i < |before| ==> before[i] == frames[i];
    }
    TakesThen(a, b, c, FrameSet(before), FrameSet(frames));
  }

  /** A frame that is not the heap's, and lies above its first one, may be given back. */
  lemma BackingReleased(m: Memory, mapping: map<nat, nat>, base: nat, frames: seq<nat>, f: nat)
    requires BackedBy(m, mapping, base, frames) && f !in frames && frames[0] < f
    ensures BackedBy(m.(used := m.used - {f}), mapping, base, frames)
  {
    assert forall g <- frames :: DataFrame(m, g) && DataFrame(m.(used := m.used - {f}), g);
  }

  /** A frame that was free lies above the heap's first one, and is not the heap's. */
  lemma FreeIsElsewhere(m: Memory, mapping: map<nat, nat>, base: nat, frames: seq<nat>, f: nat)
    requires BackedBy(m, mapping, base, frames) && f !in m.used
    ensures f !in frames && frames[0] < f
  {
    assert forall g <- frames :: DataFrame(m, g);
    assert frames[0] in frames;
    assert f < frames[0] ==> Within(0, f, frames[0]);
  }

  /** A fresh frame, mapped at the end of the heap, is one more page behind it. */
  lemma BackingGrows(m: Memory, mapping: map<nat, nat>, base: nat, frames: seq<nat>, f: nat, n: Memory)
    requires BackedBy(m, mapping, base, frames)
    requires f !in m.used && DataFrame(m.(used := m.used + {f}), f) && Keeps(m.(used := m.used + {f}), n)
    ensures BackedBy(n, mapping[base / PAGE_SIZE + |frames| := f], base, frames + [f])
    ensures Present(m.ram, frames) && Present(n.ram, frames + [f])
    ensures Extends(View(m.ram, frames, base), View(n.ram, frames + [f], base))
  {
    var m' := m.(used := m.used + {f});
    assert forall g <- frames :: DataFrame(m, g) && DataFrame(m', g);
    assert forall g <- frames + [f] :: DataFrame(n, g) && SameContents(m', n, g);
    assert forall i :: 0 <= i < |frames| ==> frames[i] in frames;
    assert f >= frames[0] by {
      assert f < frames[0] ==> Within(0, f, frames[0]);
    }
    var after := mapping[base / PAGE_SIZE + |frames| := f];
    forall k | 0 <= k < |frames + [f]|
      ensures PageMapped(after, base, frames + [f], k)
    {
      assert k < |frames| ==> PageMapped(mapping, base, frames, k);
    }
    ViewGrows(m.ram, n.ram, frames, [f], base);
  }

  // ---------------------------------------------------------------- headers

  predicate Extends(v: map<nat, Word>, w: map<nat, Word>) {
    forall a :: a in v ==> a in w && w[a] == v[a]
  }

  lemma ExtendsItself(v: map<nat, Word>)
    ensures Extends(v, v)
  {
  }

  lemma ExtendsFurther(v: map<nat, Word>, w: map<nat, Word>, x: map<nat, Word>)
    requires Extends(v, w) && Extends(w, x)
    ensures Extends(v, x)
  {
  }

  /** A bool field is one byte: the low byte of its word. */
  predicate Flag(w: Word) {
    w % 256 != 0
  }

  function WithFlag(w: Word, flag: bool): (r: Word)
    ensures Flag(r) == flag
  {
    w - w % 256 + if flag then 1 else 0
  }

  /** The heap_block_t of b at its address; `next` is 0 for NULL. */
  predicate Header(v: map<nat, Word>, b: Block, next: nat) {
    && b.at in v && b.at + 4 in v && b.at + 8 in v && b.at + 12 in v
    && v[b.at] == b.size && Flag(v[b.at + 4]) == b.free && v[b.at + 8] == next
  }

  /** The address of the first block, or `end` for no block. */
  function First(bs: seq<Block>, end: nat): nat {
    if bs == [] then end else bs[0].at
  }

  /** Memory holds the blocks, linked through next; the last one's next is `end`. */
  predicate Linked(v: map<nat, Word>, bs: seq<Block>, end: nat) {
    bs == [] || (Header(v, bs[0], First(bs[1..], end)) && Linked(v, bs[1..], end))
  }

  /** w differs from v only at addresses in [low, high). */
  predicate SameOutside(v: map<nat, Word>, w: map<nat, Word>, low: nat, high: nat) {
    forall a :: a in v ==> a in w && (a < low || high <= a ==> w[a] == v[a])
  }

  predicate SamePayload(v: map<nat, Word>, w: map<nat, Word>, b: Block) {
    forall a :: a in v && b.Payload() <= a < b.End() ==> a in w && w[a] == v[a]
  }

  /** No block in use has a word of its payload changed. */
  predicate KeepsPayloads(v: map<nat, Word>, w: map<nat, Word>, bs: seq<Block>) {
    forall b <- bs :: !b.free ==> SamePayload(v, w, b)
  }

  lemma {:induction false} LinkedAppend(v: map<nat, Word>, a: seq<Block>, b: seq<Block>, end: nat)
    ensures Linked(v, a + b, end) <==> Linked(v, a, First(b, end)) && Linked(v, b, end)
  {
    if a == [] {
      assert a + b == b;
    } else {
      assert (a + b)[1..] == a[1..] + b;
      LinkedAppend(v, a[1..], b, end);
    }
  }

  /** Headers outside the changed range are still there. */
  lemma {:induction false} LinkedFrame(v: map<nat, Word>, w: map<nat, Word>, bs: seq<Block>, end: nat, low: nat, high: nat)
    requires Linked(v, bs, end) && SameOutside(v, w, low, high)
    requires forall b <- bs :: b.at + 12 <= low || high <= b.at
    ensures Linked(w, bs, end)
  {
    if bs != [] {
      assert bs[0] in bs;
      LinkedFrame(v, w, bs[1..], end, low, high);
    }
  }

  /**
   * One block b of a list a + [b] + c is replaced by x: memory changes only within b, and holds x there.
   * Then memory holds the new list, and if b was free no payload has changed.
   */
  lemma Replaced(v: map<nat, Word>, w: map<nat, Word>, low: nat, high: nat,
                 a: seq<Block>, b: Block, c: seq<Block>, x: seq<Block>)
    requires Chain(a, low, b.at) && Chain(c, b.End(), high)
    requires Linked(v, a, b.at) && Linked(v, c, 0)
    requires SameOutside(v, w, b.at, b.End())
    requires x != [] && x[0].at == b.at && Linked(w, x, First(c, 0))
    ensures Linked(w, a + x + c, 0)
  {
    hide Chain, SameOutside, Linked;
    BeforeIsApart(a, low, b.at, b.End());
    BehindIsApart(c, b.at, b.End(), high);
    LinkedFrame(v, w, a, b.at, b.at, b.End());
    LinkedFrame(v, w, c, 0, b.at, b.End());
    LinkedAppend(w, x, c, 0);
    LinkedAppend(w, a, x + c, 0);
    assert a + x + c == a + (x + c);
  }

  /** The headers of a chain below `at` end there, and those of a chain from `end` on start there. */
  lemma BeforeIsApart(bs: seq<Block>, low: nat, at: nat, end: nat)
    requires Chain(bs, low, at)
    ensures forall b <- bs :: b.at + 12 <= at || end <= b.at
  {
  }

  lemma BehindIsApart(bs: seq<Block>, at: nat, end: nat, high: nat)
    requires Chain(bs, end, high)
    ensures forall b <- bs :: b.at + 12 <= at || end <= b.at
  {
  }

  lemma PayloadsFrame(v: map<nat, Word>, w: map<nat, Word>, bs: seq<Block>, low: nat, high: nat)
    requires SameOutside(v, w, low, high)
    requires forall b <- bs :: b.End() <= low || high <= b.Payload()
    ensures KeepsPayloads(v, w, bs)
  {
  }

  /** Four stores make a header. */
  lemma HeaderWritten(v: map<nat, Word>, b: Block, flags: Word, next: Word, prev: Word)
    requires b.size < WORD_LIMIT && Flag(flags) == b.free
    requires b.at in v && b.at + 4 in v && b.at + 8 in v && b.at + 12 in v
    ensures var w := v[b.at := b.size][b.at + 4 := flags][b.at + 8 := next][b.at + 12 := prev];
            Header(w, b, next) && SameOutside(v, w, b.at, b.at + HEADER) && w.Keys == v.Keys
  {
  }

  /** Below `limit` nothing changes but the next field of the block at `last`. */
  predicate Appended(v: map<nat, Word>, w: map<nat, Word>, last: nat, limit: nat) {
    forall a :: a in v ==> a in w && (a < limit && a != last + 8 ==> w[a] == v[a])
  }

  /** A list written at the limit and linked from the last block extends the list. */
  lemma GrowLinked(v: map<nat, Word>, w: map<nat, Word>, low: nat, limit: nat, front: seq<Block>, last: Block, x: seq<Block>)
    requires Chain(front + [last], low, limit) && Linked(v, front + [last], 0)
    requires Appended(v, w, last.at, limit)
    requires x != [] && x[0].at == limit && Header(w, last, limit) && Linked(w, x, 0)
    ensures Linked(w, front + [last] + x, 0)
  {
    hide Linked, Header, Appended;
    LinkedAppend(v, front, [last], 0);
    ChainAround(front + [last], low, limit, |front|);
    assert (front + [last])[..|front|] == front;
    FrontFrame(v, w, low, front, last.at, limit);
    LinkedOne(w, last, limit);
    LinkedAppend(w, [last], x, 0);
    LinkedAppend(w, front, [last] + x, 0);
    assert front + [last] + x == front + ([last] + x);
  }

  lemma LinkedOne(v: map<nat, Word>, b: Block, end: nat)
    ensures Linked(v, [b], end) <==> Header(v, b, end)
  {
    assert [b][1..] == [];
  }

  lemma {:induction false} FrontFrame(v: map<nat, Word>, w: map<nat, Word>, low: nat, front: seq<Block>, last: nat, limit: nat)
    requires Linked(v, front, last) && Appended(v, w, last, limit)
    requires last <= limit && Chain(front, low, last)
    ensures Linked(w, front, last)
  {
    if front != [] {
      assert front[0] in front;
      FrontFrame(v, w, low, front[1..], last, limit);
    }
  }

  lemma AppendKeepsPayloads(v: map<nat, Word>, w: map<nat, Word>, low: nat, limit: nat, front: seq<Block>, last: Block)
    requires Chain(front + [last], low, limit) && Appended(v, w, last.at, limit)
    ensures KeepsPayloads(v, w, front + [last])
  {
    var bs := front + [last];
    forall b <- bs
      ensures SamePayload(v, w, b)
    {
      var i :| 0 <= i < |bs| && bs[i] == b;
      assert i < |front| ==> b.End() <= last.at;
    }
  }

  /** The new blocks of an expansion, once their headers are written. */
  lemma FreshLinked(w: map<nat, Word>, limit: nat, n: Word)
    requires Expandable(n)
    requires var x := Fresh(limit, n);
             if |x| == 1 then Header(w, x[0], 0) else Header(w, x[0], x[1].at) && Header(w, x[1], 0)
    ensures Linked(w, Fresh(limit, n), 0)
  {
    var x := Fresh(limit, n);
    if |x| == 1 {
      assert x[1..] == [];
    } else {
      assert x[1..] == [x[1]] && x[1..][1..] == [];
    }
  }

  /** Taking a block: only its own bytes change, so the list is as Take says and no payload is touched. */
  lemma TakeLinked(v: map<nat, Word>, w: map<nat, Word>, bs: seq<Block>, low: nat, high: nat, i: nat, n: nat)
    requires Shape(bs, low, high) && Linked(v, bs, 0) && i < |bs| && Fits(bs[i], n)
    requires SameOutside(v, w, bs[i].at, bs[i].End())
    requires Linked(w, Split(bs[i], n), First(bs[i + 1..], 0))
    ensures Linked(w, Take(bs, i, n), 0)
    ensures KeepsPayloads(v, w, bs)
  {
    hide Linked, SameOutside, Shape, Chain, SamePayload;
    assert Chain(bs, low, high) by { ShapeIsChain(bs, low, high); }
    LinkedAround(v, bs, i, 0);
    ChainAround(bs, low, high, i);
    Replaced(v, w, low, high, bs[..i], bs[i], bs[i + 1..], Split(bs[i], n));
    PayloadsApart(v, w, bs, low, high, i);
  }

  lemma BlockIn(bs: seq<Block>, low: nat, high: nat, i: nat)
    requires Shape(bs, low, high) && i < |bs|
    ensures low <= bs[i].at && bs[i].End() <= high && bs[i].at % 4 == 0 && bs[i].size % 4 == 0
  {
    assert bs[i] in bs;
  }

  lemma ShapeIsChain(bs: seq<Block>, low: nat, high: nat)
    requires Shape(bs, low, high)
    ensures bs != [] && Chain(bs, low, high)
  {
  }

  lemma PayloadsApart(v: map<nat, Word>, w: map<nat, Word>, bs: seq<Block>, low: nat, high: nat, i: nat)
    requires Chain(bs, low, high) && i < |bs| && bs[i].free
    requires SameOutside(v, w, bs[i].at, bs[i].End())
    ensures KeepsPayloads(v, w, bs)
  {
    forall b <- bs | !b.free
      ensures SamePayload(v, w, b)
    {
      var j :| 0 <= j < |bs| && bs[j] == b;
    }
  }

  lemma LinkedAround(v: map<nat, Word>, bs: seq<Block>, i: nat, end: nat)
    requires Linked(v, bs, end) && i < |bs|
    ensures Linked(v, bs[..i], bs[i].at) && Linked(v, bs[i + 1..], end)
    ensures Header(v, bs[i], First(bs[i + 1..], end))
  {
    assert bs == bs[..i] + ([bs[i]] + bs[i + 1..]);
    LinkedAppend(v, bs[..i], [bs[i]] + bs[i + 1..], end);
    LinkedAppend(v, [bs[i]], bs[i + 1..], end);
    LinkedOne(v, bs[i], First(bs[i + 1..], end));
  }

  /** The headers that a split leaves, in order. */
  lemma SplitLinked(w: map<nat, Word>, b: Block, n: nat, end: nat)
    requires Fits(b, n)
    requires var x := Split(b, n);
             if |x| == 1 then Header(w, x[0], end) else Header(w, x[0], x[1].at) && Header(w, x[1], end)
    ensures Linked(w, Split(b, n), end)
  {
    var x := Split(b, n);
    if |x| == 1 {
      LinkedOne(w, x[0], end);
      assert x == [x[0]];
    } else {
      LinkedOne(w, x[0], x[1].at);
      LinkedOne(w, x[1], end);
      LinkedAppend(w, [x[0]], [x[1]], end);
      assert x == [x[0]] + [x[1]];
    }
  }

  lemma NextField(v: map<nat, Word>, b: Block, next: nat)
    requires Header(v, b, next)
    ensures b.at + 8 in v && v[b.at + 8] == next
  {
  }

  /** The stores of a split: the size, the header behind it, and the link to that header. */
  lemma SplitWritten(v: map<nat, Word>, w: map<nat, Word>, at: nat, size: Word, n: Word, next: nat)
    requires Header(v, Block(at, size, false), next) && n + HEADER + 4 <= size
    requires at + HEADER + n < WORD_LIMIT
    requires SameOutside(v[at := n], w, at + HEADER + n, at + HEADER + n + HEADER)
    requires Header(w, Block(at + HEADER + n, size - n - HEADER, true), next)
    ensures var after := w[at + 8 := at + HEADER + n];
            && SameOutside(v, after, at, at + HEADER + size)
            && Header(after, Block(at, n, false), at + HEADER + n)
            && Header(after, Block(at + HEADER + n, size - n - HEADER, true), next)
  {
  }

  /** The stores of an expansion without a tail. */
  lemma AppendWritten(v: map<nat, Word>, w: map<nat, Word>, at: nat, n: Word, last: nat)
    requires SameOutside(v, w, at, at + HEADER) && Header(w, Block(at, n, false), 0)
    requires last + HEADER <= at < WORD_LIMIT && last + 8 in v
    ensures var after := w[last + 8 := at];
            Appended(v, after, last, at) && Header(after, Block(at, n, false), 0)
  {
  }

  /** The stores of a tail behind it. */
  lemma TailWritten(v: map<nat, Word>, w: map<nat, Word>, at: nat, n: Word, rest: Word)
    requires Header(v, Block(at, n, false), 0) && at + HEADER + n < WORD_LIMIT
    requires SameOutside(v, w, at + HEADER + n, at + HEADER + n + HEADER)
    requires Header(w, Block(at + HEADER + n, rest, true), 0)
    ensures var after := w[at + 8 := at + HEADER + n];
            && SameOutside(v, after, at, at + HEADER + n + HEADER)
            && Header(after, Block(at, n, false), at + HEADER + n)
            && Header(after, Block(at + HEADER + n, rest, true), 0)
  {
  }

  lemma AppendedThen(v: map<nat, Word>, w: map<nat, Word>, x: map<nat, Word>, last: nat, at: nat, high: nat)
    requires Appended(v, w, last, at) && SameOutside(w, x, at, high) && last + 8 < at && last + 8 in w
    ensures Appended(v, x, last, at) && x[last + 8] == w[last + 8]
  {
  }

  /** An expansion as a whole: new pages, then the stores of AppendBlocks. */
  lemma ExpandLinked(v: map<nat, Word>, grown: map<nat, Word>, w: map<nat, Word>,
                     front: seq<Block>, last: Block, low: nat, limit: nat, n: Word)
    requires Shape(front + [last], low, limit) && Linked(v, front + [last], 0) && Extends(v, grown) && Expandable(n)
    requires Appended(grown, w, last.at, limit) && Linked(w, Fresh(limit, n), 0)
    requires last.at + 8 in w && w[last.at + 8] == limit
    ensures Linked(w, Grow(front + [last], limit, n), 0)
    ensures KeepsPayloads(v, w, front + [last])
  {
    hide Linked, Extends, Appended, KeepsPayloads, Header, Shape, Chain, Fresh;
    FreshFirst(limit, n);
    ShapeIsChain(front + [last], low, limit);
    ExtendsFrame(v, grown, front + [last]);
    LinkedAppend(grown, front, [last], 0);
    LinkedOne(grown, last, 0);
    LastFits(front, last, low, limit);
    LastHeader(grown, w, last, limit);
    GrowLinked(grown, w, low, limit, front, last, Fresh(limit, n));
    AppendKeepsPayloads(grown, w, low, limit, front, last);
    PayloadsThrough(v, grown, w, front + [last]);
  }

  lemma LastFits(front: seq<Block>, last: Block, low: nat, limit: nat)
    requires Chain(front + [last], low, limit)
    ensures last.End() <= limit
  {
    assert last in front + [last];
  }

  lemma FreshFirst(limit: nat, n: Word)
    requires Expandable(n)
    ensures Fresh(limit, n) != [] && Fresh(limit, n)[0].at == limit
  {
  }

  lemma ExtendsFrame(v: map<nat, Word>, w: map<nat, Word>, bs: seq<Block>)
    requires Linked(v, bs, 0) && Extends(v, w)
    ensures Linked(w, bs, 0) && KeepsPayloads(v, w, bs)
  {
    LinkedFrame(v, w, bs, 0, 0, 0);
  }

  lemma LastHeader(v: map<nat, Word>, w: map<nat, Word>, last: Block, limit: nat)
    requires Header(v, last, 0) && Appended(v, w, last.at, limit) && last.End() <= limit
    requires last.at + 8 in w && w[last.at + 8] == limit
    ensures Header(w, last, limit)
  {
  }

  lemma PayloadsThrough(v: map<nat, Word>, w: map<nat, Word>, x: map<nat, Word>, bs: seq<Block>)
    requires Extends(v, w) && KeepsPayloads(w, x, bs)
    ensures KeepsPayloads(v, x, bs)
  {
  }

  /** The stores of one merge: size and next of the first block, then prev of the block behind both. */
  lemma MergeLinked(v: map<nat, Word>, w: map<nat, Word>, done: seq<Block>, a: Block, b: Block, rest: seq<Block>,
                    low: nat, high: nat)
    requires Shape(done + [a, b] + rest, low, high) && Linked(v, done + [a, b] + rest, 0) && a.free && b.free
    requires SameOutside(v, w, a.at, a.at + HEADER) && Header(w, Merge(a, b), First(rest, 0))
    ensures Linked(w, done + [Merge(a, b)] + rest, 0)
    ensures KeepsPayloads(v, w, done + [a, b] + rest)
  {
    hide Linked, Header, Shape, Chain, SameOutside, KeepsPayloads, Merge;
    MergeHead(done, a, b, rest);
    MergeShape(done, a, b, rest, low, high);
    assert done + [a, b] + rest == done + ([a, b] + rest);
    LinkedAppend(v, done, [a, b] + rest, 0);
    LinkedAppend(v, [a, b], rest, 0);
    LinkedOne(w, Merge(a, b), First(rest, 0));
    MergedPlace(a, b);
    SameOutsideWidens(v, w, a.at, a.at + HEADER, Merge(a, b).End());
    Replaced(v, w, low, high, done, Merge(a, b), rest, [Merge(a, b)]);
    HeaderStoreKeepsPayloads(v, w, done + [a, b] + rest, low, high, |done|);
  }

  lemma MergeHead(done: seq<Block>, a: Block, b: Block, rest: seq<Block>)
    ensures (done + [a, b] + rest)[|done|] == a
  {
  }

  lemma MergedPlace(a: Block, b: Block)
    ensures Merge(a, b).at == a.at && a.at + HEADER <= Merge(a, b).End()
  {
  }

  lemma SameOutsideWidens(v: map<nat, Word>, w: map<nat, Word>, low: nat, high: nat, higher: nat)
    requires SameOutside(v, w, low, high) && high <= higher
    ensures SameOutside(v, w, low, higher)
  {
  }

  /** A store in the header of a block touches no payload. */
  lemma HeaderStoreKeepsPayloads(v: map<nat, Word>, w: map<nat, Word>, bs: seq<Block>, low: nat, high: nat, i: nat)
    requires Shape(bs, low, high) && i < |bs| && SameOutside(v, w, bs[i].at, bs[i].at + HEADER)
    ensures KeepsPayloads(v, w, bs)
  {
    forall b <- bs
      ensures b.End() <= bs[i].at || bs[i].at + HEADER <= b.Payload()
    {
      var j :| 0 <= j < |bs| && bs[j] == b;
    }
    PayloadsFrame(v, w, bs, bs[i].at, bs[i].at + HEADER);
  }

  /** A store to the prev field of a block has no part in the list. */
  lemma PrevStoreKeepsList(v: map<nat, Word>, bs: seq<Block>, low: nat, high: nat, i: nat, prev: Word)
    requires Shape(bs, low, high) && i < |bs| && Linked(v, bs, 0)
    ensures var w := v[bs[i].at + 12 := prev]; Linked(w, bs, 0) && KeepsPayloads(v, w, bs)
  {
    var w := v[bs[i].at + 12 := prev];
    forall b <- bs
      ensures b.at + 12 <= bs[i].at + 12 || bs[i].at + HEADER <= b.at
    {
      var j :| 0 <= j < |bs| && bs[j] == b;
    }
    LinkedFrame(v, w, bs, 0, bs[i].at + 12, bs[i].at + HEADER);
    HeaderStoreKeepsPayloads(v, w, bs, low, high, i);
  }

  /** The store of kfree: the flag of one block. */
  lemma MarkLinked(v: map<nat, Word>, flags: Word, a: seq<Block>, b: Block, c: seq<Block>, low: nat, high: nat)
    requires Shape(a + [b] + c, low, high) && Linked(v, a + [b] + c, 0) && Flag(flags)
    ensures var w := v[b.at + 4 := flags];
            && Linked(w, Mark(a + [b] + c, b.at), 0)
            && KeepsPayloads(v, w, a + [b] + c)
  {
    hide Linked, Shape, Chain, KeepsPayloads, Mark;
    var bs, w := a + [b] + c, v[b.at + 4 := flags];
    assert bs[|a|] == b && bs[..|a|] == a && bs[|a| + 1..] == c;
    ShapeIsChain(bs, low, high);
    LinkedAround(v, bs, |a|, 0);
    ChainAround(bs, low, high, |a|);
    MarkOne(a, b, c, low, high);
    LinkedOne(w, b.(free := true), First(c, 0));
    Replaced(v, w, low, high, a, b, c, [b.(free := true)]);
    HeaderStoreKeepsPayloads(v, w, bs, low, high, |a|);
  }

  lemma PayloadsStay(v: map<nat, Word>, bs: seq<Block>)
    ensures KeepsPayloads(v, v, bs)
  {
  }

  lemma TakenAt(b: Block, n: nat)
    requires Fits(b, n)
    ensures Taken(b, n).at == b.at
  {
  }

  lemma FirstOf(bs: seq<Block>, low: nat, high: nat)
    requires Shape(bs, low, high)
    ensures bs != [] && First(bs, 0) == low
  {
  }

  lemma HeaderFields(v: map<nat, Word>, b: Block, next: nat)
    requires Header(v, b, next)
    ensures b.at in v && b.at + 4 in v && b.at + 8 in v && b.at + 12 in v
    ensures v[b.at] == b.size && Flag(v[b.at + 4]) == b.free && v[b.at + 8] == next
  {
  }

  /** Where a walk along next stands: at the first block of what is ahead, or at the end. */
  lemma HeadOf(v: map<nat, Word>, done: seq<Block>, ahead: seq<Block>, low: nat, high: nat)
    requires Shape(done + ahead, low, high) && Linked(v, ahead, 0)
    ensures ahead != [] ==>
              && Header(v, ahead[0], First(ahead[1..], 0)) && Linked(v, ahead[1..], 0)
              && low <= ahead[0].at && ahead[0].End() <= high && Aligned(ahead[0])
              && (done + ahead)[|done|] == ahead[0]
  {
    if ahead != [] {
      BlockIn(done + ahead, low, high, |done|);
    }
  }

  lemma NoneAhead(ahead: seq<Block>, bs: seq<Block>, done: seq<Block>, low: nat, high: nat)
    requires Shape(bs, low, high) && bs == done + ahead && low > 0 && First(ahead, 0) == 0
    ensures ahead == [] && done == bs && done != []
  {
    if ahead != [] {
      BlockIn(bs, low, high, |done|);
    }
  }

  /** What the two headers of a merge hold. */
  lemma TwoHeaders(v: map<nat, Word>, done: seq<Block>, a: Block, b: Block, rest: seq<Block>, low: nat, high: nat)
    requires Shape(done + [a, b] + rest, low, high) && Linked(v, done + [a, b] + rest, 0)
    ensures Header(v, a, b.at) && Header(v, b, First(rest, 0))
    ensures a.at in v && a.at + 4 in v && a.at + 8 in v && a.at + 12 in v
    ensures b.at in v && b.at + 4 in v && b.at + 8 in v && b.at + 12 in v
    ensures v[a.at] == a.size && Flag(v[a.at + 4]) == a.free && v[a.at + 8] == b.at
    ensures v[b.at] == b.size && Flag(v[b.at + 4]) == b.free && v[b.at + 8] == First(rest, 0)
    ensures a.End() <= b.at && b.End() <= high
  {
    hide Linked, Shape, Chain;
    MergeChain(done, a, b, rest, low, high);
    assert done + [a, b] + rest == done + [a] + ([b] + rest);
    LinkedAppend(v, done + [a], [b] + rest, 0);
    LinkedAppend(v, done, [a], b.at);
    LinkedAppend(v, [b], rest, 0);
    LinkedOne(v, a, b.at);
    LinkedOne(v, b, First(rest, 0));
  }

  lemma MergeWritten(v: map<nat, Word>, a: Block, b: Block, next: Word)
    requires Header(v, a, b.at) && Header(v, b, next) && a.free && a.End() <= b.at && b.End() < WORD_LIMIT
    ensures var w := v[a.at := a.size + (b.size + HEADER)][a.at + 8 := next];
            Header(w, Merge(a, b), next) && SameOutside(v, w, a.at, a.at + HEADER)
  {
  }

  lemma NextHeader(v: map<nat, Word>, done: seq<Block>, b: Block, rest: seq<Block>, low: nat, high: nat)
    requires Shape(done + [b] + rest, low, high) && Linked(v, done + [b] + rest, 0) && First(rest, 0) != 0
    ensures rest != [] && rest[0].at + 12 in v && (done + [b] + rest)[|done| + 1].at == rest[0].at
  {
    LinkedAppend(v, done + [b], rest, 0);
  }

  /** Payloads kept by the merge and then by the store of prev. */
  lemma KeepsThrough(v: map<nat, Word>, w: map<nat, Word>, x: map<nat, Word>, done: seq<Block>, a: Block, b: Block, rest: seq<Block>)
    requires KeepsPayloads(v, w, done + [a, b] + rest) && KeepsPayloads(w, x, done + [Merge(a, b)] + rest)
    requires a.free && b.free
    ensures KeepsPayloads(v, x, done + [a, b] + rest)
  {
    forall c <- done + [a, b] + rest | !c.free
      ensures SamePayload(v, x, c)
    {
      assert c in done + [Merge(a, b)] + rest;
      assert SamePayload(v, w, c) && SamePayload(w, x, c);
    }
  }

  lemma KeepsInUse(v: map<nat, Word>, w: map<nat, Word>, x: map<nat, Word>, start: seq<Block>, now: seq<Block>)
    requires KeepsPayloads(v, w, start) && KeepsPayloads(w, x, now) && InUse(start) == InUse(now)
    ensures KeepsPayloads(v, x, start)
  {
    InUseMembers(start);
    InUseMembers(now);
    forall c <- start | !c.free
      ensures SamePayload(v, x, c)
    {
      assert c in InUse(start);
      assert SamePayload(v, w, c) && SamePayload(w, x, c);
    }
  }

  /** At the end of the walk the list is coalesced. */
  lemma CoalesceEnds(ahead: seq<Block>, start: seq<Block>, low: nat, high: nat, done: seq<Block>)
    requires Shape(done + ahead, low, high) && low > 0 && ahead != [] && First(ahead[1..], 0) == 0
    requires done + Coalesce(ahead) == Coalesce(start)
    ensures done + ahead == Coalesce(start)
  {
    if |ahead| > 1 {
      BlockIn(done + ahead, low, high, |done| + 1);
    }
  }

  /** Where the block with payload address p stands in the list. */
  ghost function IndexOf(bs: seq<Block>, p: nat): (i: nat)
    requires exists b <- bs :: !b.free && b.Payload() == p
    ensures i < |bs| && !bs[i].free && bs[i].Payload() == p
  {
    var b :| b in bs && !b.free && b.Payload() == p;
    var i :| 0 <= i < |bs| && bs[i] == b;
    i
  }

  lemma MarkShapeToo(bs: seq<Block>, low: nat, high: nat, at: nat)
    requires Shape(bs, low, high)
    ensures Shape(Mark(bs, at), low, high)
  {
    MarkShape(bs, low, high, at);
  }

  /** Payloads kept by the store of kfree and then by coalescing. */
  lemma MarkedThrough(v: map<nat, Word>, w: map<nat, Word>, x: map<nat, Word>, bs: seq<Block>, at: nat)
    requires KeepsPayloads(v, w, bs) && KeepsPayloads(w, x, Mark(bs, at))
    ensures KeepsPayloads(v, x, Mark(bs, at))
  {
    forall c <- Mark(bs, at) | !c.free
      ensures SamePayload(v, x, c)
    {
      MarkMembers(bs, at, c);
      assert SamePayload(v, w, c) && SamePayload(w, x, c);
    }
  }

  lemma {:induction false} MarkMembers(bs: seq<Block>, at: nat, c: Block)
    requires c in Mark(bs, at) && !c.free
    ensures c in bs && c.at != at
  {
    if c in Mark(bs[1..], at) {
      MarkMembers(bs[1..], at, c);
    }
  }

  /** A store in a payload leaves every header where it is. */
  lemma PayloadStoreKeepsList(v: map<nat, Word>, bs: seq<Block>, low: nat, high: nat, b: Block, a: nat, w: Word)
    requires Shape(bs, low, high) && Linked(v, bs, 0) && b in bs && b.Payload() <= a < b.End() && a % 4 == 0 && a in v
    ensures Linked(v[a := w], bs, 0)
  {
    forall c <- bs
      ensures c.at + 12 <= a || a + 1 <= c.at
    {
      if c != b {
        BlocksApart(bs, low, high, b);
      }
    }
    LinkedFrame(v, v[a := w], bs, 0, a, a + 1);
  }
}
