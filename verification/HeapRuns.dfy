/** Whole runs of a client of the heap, among other owners of blocks and other users of frames and page tables. */
module HeapRuns {
  import opened Words
  import Pmm
  import opened Vmm
  import opened Blocks
  import BlockLaws
  import opened HeapMemory
  import opened Heap

  /**
   * One step: kmalloc; kfree of the k-th pointer the client holds; a store to a word of its payload;
   * map_page; pmm_alloc_page; pmm_free_page for the k-th frame that the client took. A step that does not
   * apply is skipped, and so is a kmalloc for which the heap would have to grow into the framebuffer.
   */
  datatype Action =
    | Allocate(size: Word)
    | Deallocate(k: nat)
    | Write(k: nat, offset: nat, word: Word)
    | Map(virtualAddress: Word, physicalAddress: Word)
    | TakeFrame
    | GiveFrame(k: nat)

  /** A pointer that kmalloc returned, and the size that was asked for. */
  datatype Grant = Grant(pointer: nat, size: Word)

  // ---------------------------------------------------------------- runs on values

  /** The heap's list; the client's pointers and their blocks; what it has written to them. */
  datatype State = State(list: List, pointers: seq<Grant>, owned: seq<Block>, written: map<nat, Word>)

  predicate IsCallable(a: Action) {
    a.Allocate? ==> Expandable(Round4(a.size))
  }

  /** Whether kmalloc stays below the framebuffer; `small` says that the machine has at most 512 MB. */
  predicate Allowed(s: List, n: Word, small: bool) {
    n == 0 || FirstFit(s.blocks, n) < |s.blocks| || s.limit + NeededPages(n) * PAGE_SIZE <= VIDEO_VRT_ADDR || small
  }

  /** The call on the heap that a step makes, if any; `got` is how many pages an expansion could have. */
  function CallsOf(s: State, a: Action, got: nat, small: bool): (cs: seq<Call>)
    requires IsCallable(a)
    ensures Callable(cs)
  {
    match a
    case Allocate(size) => if Allowed(s.list, Round4(size), small) then [Malloc(size, got)] else []
    case Deallocate(k) => if k < |s.pointers| && k < |s.owned| then [Free(s.owned[k].at)] else []
    case _ => []
  }

  function Served(s: State, a: Action, got: nat, small: bool): State
    requires IsCallable(a)
  {
    var calls := CallsOf(s, a, got, small);
    match a
    case Allocate(size) =>
      if calls == [] then s else
        var grant := Granted(s.list, size, got);
        State(Step(s.list, calls[0]),
              s.pointers + (if grant == [] then [] else [Grant(grant[0].Payload(), size)]), s.owned + grant, s.written)
    case Deallocate(k) =>
      if calls == [] then s else
        State(Step(s.list, calls[0]), s.pointers[..k] + s.pointers[k + 1..], s.owned[..k] + s.owned[k + 1..],
              Outside(s.written, s.owned[k]))
    case Write(k, offset, word) =>
      if Writes(s, k, offset) then s.(written := s.written[s.pointers[k].pointer + offset := word]) else s
    case _ => s
  }

  predicate Writes(s: State, k: nat, offset: nat) {
    k < |s.pointers| && offset % 4 == 0 && offset < s.pointers[k].size
  }

  /** What was written elsewhere than to b. */
  function Outside(written: map<nat, Word>, b: Block): map<nat, Word> {
    map a | a in written && !(b.Payload() <= a < b.End()) :: written[a]
  }

  /** A kmalloc that is allowed and hands out nothing though something was asked for. */
  predicate Fails(s: State, a: Action, got: nat, small: bool)
    requires IsCallable(a)
  {
    a.Allocate? && CallsOf(s, a, got, small) != [] && Round4(a.size) != 0 && Granted(s.list, a.size, got) == []
  }

  predicate Runnable(script: seq<Action>, gots: seq<nat>) {
    |gots| == |script| && forall a <- script :: IsCallable(a)
  }

  lemma RunnableFront(script: seq<Action>, gots: seq<nat>)
    requires Runnable(script, gots) && script != []
    ensures Runnable(script[..|script| - 1], gots[..|script| - 1]) && IsCallable(script[|script| - 1])
  {
    assert script[|script| - 1] in script;
  }

  function ServedAll(s: State, script: seq<Action>, gots: seq<nat>, small: bool): State
    requires Runnable(script, gots)
  {
    if script == [] then
      s
    else
      var n := |script| - 1;
      RunnableFront(script, gots);
      Served(ServedAll(s, script[..n], gots[..n], small), script[n], gots[n], small)
  }

  function CallsOfAll(s: State, script: seq<Action>, gots: seq<nat>, small: bool): (cs: seq<Call>)
    requires Runnable(script, gots)
    ensures Callable(cs)
  {
    if script == [] then
      []
    else
      var n := |script| - 1;
      RunnableFront(script, gots);
      CallsOfAll(s, script[..n], gots[..n], small)
      + CallsOf(ServedAll(s, script[..n], gots[..n], small), script[n], gots[n], small)
  }

  predicate FailsOnce(s: State, script: seq<Action>, gots: seq<nat>, small: bool)
    requires Runnable(script, gots)
  {
    script != []
    && var n := |script| - 1;
       RunnableFront(script, gots);
       || FailsOnce(s, script[..n], gots[..n], small)
       || Fails(ServedAll(s, script[..n], gots[..n], small), script[n], gots[n], small)
  }

  /**
   * The kmalloc of a script fails exactly if something is asked for, no free block is large enough, the pages
   * that could be had do not hold it, and those that it needs would have stayed below the framebuffer.
   */
  lemma FailsIff(s: State, n: Word, got: nat, small: bool)
    requires IsCallable(Allocate(n))
    ensures Fails(s, Allocate(n), got, small)
            <==> && Round4(n) > 0 && (forall b <- s.list.blocks :: !(b.free && b.size >= Round4(n)))
                 && 4096 * got < Round4(n) + 16
                 && (small || s.list.limit + 4096 * ((Round4(n) + 16 + 4095) / 4096) <= 0xE000_0000)
  {
    hide Granted, FirstFit, Round4;
    BlockLaws.MallocFailsIff(s.list, n, got);
    if forall b <- s.list.blocks :: !(b.free && b.size >= Round4(n)) {
      BlockLaws.NoneFits(s.list.blocks, Round4(n));
    }
  }

  /** A kmalloc is skipped only if no free block is large enough and the heap would grow into the framebuffer. */
  lemma AllocateIsServed(s: State, n: Word, got: nat, small: bool, b: Block)
    requires IsCallable(Allocate(n))
    requires || small || (b in s.list.blocks && b.free && b.size >= Round4(n))
             || s.list.limit + 4096 * ((Round4(n) + 16 + 4095) / 4096) <= 0xE000_0000
    ensures var grant := Granted(s.list, n, got);
            Served(s, Allocate(n), got, small)
            == State(Step(s.list, Malloc(n, got)), s.pointers + (if grant == [] then [] else [Grant(grant[0].at + 16, n)]),
                     s.owned + grant, s.written)
  {
    var i := FirstFit(s.list.blocks, Round4(n));
    if b in s.list.blocks && b.free && b.size >= Round4(n) {
      var j :| 0 <= j < |s.list.blocks| && s.list.blocks[j] == b;
      assert i <= j;
    }
  }

  /** kfree takes the pointer and what was written there from the client; a store to a payload is remembered. */
  lemma PointerIsServed(s: State, k: nat, offset: nat, word: Word, small: bool)
    requires k < |s.pointers| == |s.owned|
    ensures var after := Served(s, Deallocate(k), 0, small);
            && after.list == Step(s.list, Free(s.owned[k].at))
            && after.pointers == s.pointers[..k] + s.pointers[k + 1..] && after.owned == s.owned[..k] + s.owned[k + 1..]
            && forall a :: a in after.written <==>
                 a in s.written && !(s.owned[k].at + 16 <= a < s.owned[k].at + 16 + s.owned[k].size)
    ensures offset % 4 == 0 && offset < s.pointers[k].size ==>
              Served(s, Write(k, offset, word), 0, small) == s.(written := s.written[s.pointers[k].pointer + offset := word])
  {
    hide Step;
  }

  lemma {:induction false} RunAppend(s: List, a: seq<Call>, b: seq<Call>)
    requires Callable(a) && Callable(b)
    ensures Callable(a + b) && Run(s, a + b) == Run(Run(s, a), b)
    decreases |a|
  {
    assert Callable(a + b);
    if a == [] {
      assert a + b == b;
    } else {
      assert a[0] in a && Callable(a[1..]);
      assert (a + b)[1..] == a[1..] + b;
      RunAppend(Step(s, a[0]), a[1..], b);
    }
  }

  lemma ServedList(s: State, a: Action, got: nat, small: bool)
    requires IsCallable(a)
    ensures Served(s, a, got, small).list == Run(s.list, CallsOf(s, a, got, small))
  {
    hide Step, Granted, Outside;
    var calls := CallsOf(s, a, got, small);
    if calls != [] {
      assert calls == [calls[0]];
      RunOne(s.list, calls[0]);
    }
  }

  lemma RunOne(s: List, c: Call)
    requires Callable([c])
    ensures c in [c] && Run(s, [c]) == Step(s, c)
  {
    assert [c][1..] == [];
  }

  /** The list after a script is the list after its calls. */
  lemma {:induction false} ServedAllList(s: State, script: seq<Action>, gots: seq<nat>, small: bool)
    requires Runnable(script, gots)
    ensures ServedAll(s, script, gots, small).list == Run(s.list, CallsOfAll(s, script, gots, small))
  {
    hide Run, Served, CallsOf;
    if script == [] {
      RunNothing(s.list);
    } else {
      var n := |script| - 1;
      RunnableFront(script, gots);
      ServedAllList(s, script[..n], gots[..n], small);
      var front := ServedAll(s, script[..n], gots[..n], small);
      ServedList(front, script[n], gots[n], small);
      RunAppend(s.list, CallsOfAll(s, script[..n], gots[..n], small), CallsOf(front, script[n], gots[n], small));
    }
  }

  lemma RunNothing(s: List)
    ensures Run(s, []) == s
  {
  }

  /**
   * The laws of the list hold along every script: shape and normal form, and a bound on the bytes that no
   * block accounts for.
   */
  lemma ScriptLaws(s: State, low: nat, script: seq<Action>, gots: seq<nat>, small: bool)
    requires Runnable(script, gots) && Sound(s.list, low)
    ensures var calls, end := CallsOfAll(s, script, gots, small), ServedAll(s, script, gots, small).list;
            && end == Run(s.list, calls) && Sound(end, low)
            && Slack(s.list, low) <= Slack(end, low) <= Slack(s.list, low) + TotalSlack(s.list, calls)
  {
    ServedAllList(s, script, gots, small);
    RunLaws(s.list, low, CallsOfAll(s, script, gots, small));
  }

  lemma NothingServed(s: State, small: bool)
    ensures Runnable([], []) && ServedAll(s, [], [], small) == s && !FailsOnce(s, [], [], small)
  {
  }

  lemma OneMore(s: State, script: seq<Action>, gots: seq<nat>, small: bool, a: Action, got: nat)
    requires Runnable(script, gots) && IsCallable(a)
    ensures Runnable(script + [a], gots + [got])
    ensures ServedAll(s, script + [a], gots + [got], small) == Served(ServedAll(s, script, gots, small), a, got, small)
    ensures FailsOnce(s, script + [a], gots + [got], small)
            <==> FailsOnce(s, script, gots, small) || Fails(ServedAll(s, script, gots, small), a, got, small)
  {
    hide Served, Fails;
    var longer, more := script + [a], gots + [got];
    assert longer[..|script|] == script && more[..|script|] == gots;
    assert forall b <- longer :: b in script || b == a;
  }

  // ---------------------------------------------------------------- what the client holds

  predicate Backs(bs: seq<Block>, b: Block, g: Grant) {
    b in InUse(bs) && b.Payload() == g.pointer && b.size >= g.size
  }

  /** The client holds pointers to these blocks: in use, at different places, none of them another owner's. */
  ghost predicate Holds(bs: seq<Block>, pointers: seq<Grant>, owned: seq<Block>, others: set<Block>) {
    && |owned| == |pointers|
    && (forall i :: 0 <= i < |owned| ==> Backs(bs, owned[i], pointers[i]))
    && (forall i, j :: 0 <= i < j < |owned| ==> owned[i].at != owned[j].at)
    && (forall c <- others :: c in InUse(bs) && forall i :: 0 <= i < |owned| ==> owned[i].at != c.at)
  }

  predicate InOwned(owned: seq<Block>, a: nat) {
    exists i :: 0 <= i < |owned| && owned[i].Payload() <= a < owned[i].End()
  }

  /** What was written to the blocks is what memory holds there. */
  predicate Remembered(v: map<nat, Word>, owned: seq<Block>, written: map<nat, Word>) {
    forall a <- written :: InOwned(owned, a) && a in v && v[a] == written[a]
  }

  /** The frames that the client took: in use, for data, none of them the heap's. */
  ghost predicate HoldsFrames(m: Memory, frames: seq<nat>, taken: seq<Word>) {
    && |frames| > 0
    && (forall i :: 0 <= i < |taken| ==> HoldsFrame(m, frames, taken[i]))
    && (forall i, j :: 0 <= i < j < |taken| ==> taken[i] != taken[j])
  }

  ghost predicate HoldsFrame(m: Memory, frames: seq<nat>, addr: Word)
    requires |frames| > 0
  {
    && addr != 0 && addr % PAGE_SIZE == 0
    && DataFrame(m, addr / PAGE_SIZE) && addr / PAGE_SIZE !in frames && frames[0] < addr / PAGE_SIZE
  }

  /** The blocks of the other owners have kept their payloads. */
  predicate Intact(v: map<nat, Word>, w: map<nat, Word>, others: set<Block>) {
    forall c <- others :: SamePayload(v, w, c)
  }

  lemma IntactThrough(v: map<nat, Word>, w: map<nat, Word>, x: map<nat, Word>, bs: seq<Block>, others: set<Block>)
    requires Intact(v, w, others) && KeepsPayloads(w, x, bs)
    requires forall c <- others :: c in bs && !c.free
    ensures Intact(v, x, others)
  {
    forall c <- others
      ensures SamePayload(v, x, c)
    {
      assert SamePayload(v, w, c) && SamePayload(w, x, c);
    }
  }

  lemma OthersInUse(bs: seq<Block>, pointers: seq<Grant>, owned: seq<Block>, others: set<Block>)
    requires Holds(bs, pointers, owned, others)
    ensures forall c <- others :: c in bs && !c.free
    ensures forall i :: 0 <= i < |owned| ==> owned[i] in bs && !owned[i].free
  {
    InUseMembers(bs);
  }

  lemma RememberedThrough(v: map<nat, Word>, w: map<nat, Word>, bs: seq<Block>, owned: seq<Block>, written: map<nat, Word>)
    requires Remembered(v, owned, written) && KeepsPayloads(v, w, bs)
    requires forall i :: 0 <= i < |owned| ==> owned[i] in bs && !owned[i].free
    ensures Remembered(w, owned, written)
  {
    forall a <- written
      ensures a in w && w[a] == written[a]
    {
      assert InOwned(owned, a);
      var i :| 0 <= i < |owned| && owned[i].Payload() <= a < owned[i].End();
      assert SamePayload(v, w, owned[i]);
    }
  }

  lemma RememberedMore(v: map<nat, Word>, owned: seq<Block>, more: seq<Block>, written: map<nat, Word>)
    requires Remembered(v, owned, written)
    ensures Remembered(v, owned + more, written)
  {
    forall a <- written
      ensures InOwned(owned + more, a)
    {
      assert InOwned(owned, a);
      var i :| 0 <= i < |owned| && owned[i].Payload() <= a < owned[i].End();
      assert (owned + more)[i] == owned[i];
    }
  }

  lemma RememberedLess(v: map<nat, Word>, owned: seq<Block>, k: nat, written: map<nat, Word>)
    requires Remembered(v, owned, written) && k < |owned|
    ensures Remembered(v, owned[..k] + owned[k + 1..], Outside(written, owned[k]))
  {
    var less := owned[..k] + owned[k + 1..];
    forall a <- Outside(written, owned[k])
      ensures InOwned(less, a)
    {
      assert InOwned(owned, a);
      var i :| 0 <= i < |owned| && owned[i].Payload() <= a < owned[i].End();
      assert less[if i < k then i else i - 1] == owned[i];
    }
  }

  lemma RememberedWrite(v: map<nat, Word>, owned: seq<Block>, k: nat, written: map<nat, Word>, a: nat, w: Word)
    requires Remembered(v, owned, written) && k < |owned| && owned[k].Payload() <= a < owned[k].End()
    ensures Remembered(v[a := w], owned, written[a := w])
  {
    assert InOwned(owned, a);
  }

  lemma AfterMalloc(s: State, low: nat, size: Word, got: nat, small: bool, others: set<Block>)
    requires Sound(s.list, low) && Expandable(Round4(size)) && Holds(s.list.blocks, s.pointers, s.owned, others)
    ensures var t := Served(s, Allocate(size), got, small); Holds(t.list.blocks, t.pointers, t.owned, others)
  {
    hide Sound, Step, Granted, Expandable, Round4, InUse, Allowed;
    var after := Step(s.list, Malloc(size, got)).blocks;
    forall c | c in InUse(s.list.blocks)
      ensures c in InUse(after)
    {
      StepKeepsUsed(s.list, low, Malloc(size, got), c);
    }
    var grant := Granted(s.list, size, got);
    AtMostOne(s.list, size, got);
    if grant != [] {
      GrantIsOneMore(s.list, low, size, got, grant[0]);
      GrantIsNew(s.list, low, size, got, grant[0]);
      GrantIsLarge(s.list, low, size, got, grant[0]);
      assert grant[0] in multiset(InUse(after));
    }
  }

  lemma AtMostOne(s: List, n: Word, got: nat)
    requires Expandable(Round4(n))
    ensures Granted(s, n, got) == [] || Granted(s, n, got) == [Granted(s, n, got)[0]]
  {
  }

  lemma AfterFree(s: State, low: nat, k: nat, got: nat, small: bool, others: set<Block>)
    requires Sound(s.list, low) && Holds(s.list.blocks, s.pointers, s.owned, others) && k < |s.owned|
    ensures var t := Served(s, Deallocate(k), got, small); Holds(t.list.blocks, t.pointers, t.owned, others)
  {
    hide Sound, Step, InUse;
    var after := Step(s.list, Free(s.owned[k].at)).blocks;
    forall c | c in InUse(s.list.blocks) && c.at != s.owned[k].at
      ensures c in InUse(after)
    {
      StepKeepsUsed(s.list, low, Free(s.owned[k].at), c);
    }
  }

  lemma MarkKeepsOthers(bs: seq<Block>, at: nat, others: set<Block>)
    requires forall c <- others :: c in bs && !c.free && c.at != at
    ensures forall c <- others :: c in Mark(bs, at) && !c.free
  {
    forall c <- others
      ensures c in Mark(bs, at)
    {
      MarkKeeps(bs, at, c);
    }
  }

  lemma MarkKeepsOwned(bs: seq<Block>, owned: seq<Block>, k: nat)
    requires k < |owned| && forall i :: 0 <= i < |owned| ==> owned[i] in bs && !owned[i].free
    requires forall i, j :: 0 <= i < j < |owned| ==> owned[i].at != owned[j].at
    ensures var less := owned[..k] + owned[k + 1..];
            forall i :: 0 <= i < |less| ==> less[i] in Mark(bs, owned[k].at) && !less[i].free
  {
    var less := owned[..k] + owned[k + 1..];
    forall i | 0 <= i < |less|
      ensures less[i] in Mark(bs, owned[k].at) && !less[i].free
    {
      assert less[i] == owned[if i < k then i else i + 1];
      MarkKeeps(bs, owned[k].at, less[i]);
    }
  }

  lemma IntactAfterWrite(v: map<nat, Word>, w: map<nat, Word>, x: map<nat, Word>, others: set<Block>, b: Block)
    requires Intact(v, w, others) && forall c <- others :: c.at != b.at && SamePayload(w, x, c)
    ensures Intact(v, x, others)
  {
    forall c <- others
      ensures SamePayload(v, x, c)
    {
      assert SamePayload(v, w, c) && SamePayload(w, x, c);
    }
  }

  /** A block of the heap ends below 4 GB, at an aligned address. */
  lemma OwnedBlock(heap: KernelHeap, b: Block)
    requires heap.Valid() && b in heap.blocks
    ensures b.End() < WORD_LIMIT && b.at % 4 == 0
  {
    hide KernelHeap.Backed, KernelHeap.Memory, Linked;
    heap.MemoryDomain();
  }

  lemma OwnedPointer(bs: seq<Block>, pointers: seq<Grant>, owned: seq<Block>, others: set<Block>, k: nat)
    requires Holds(bs, pointers, owned, others) && k < |pointers|
    ensures |owned| == |pointers| && owned[k] in bs && !owned[k].free
    ensures owned[k].Payload() == pointers[k].pointer && owned[k].size >= pointers[k].size
    ensures forall c <- others :: c.at != owned[k].at
    ensures forall i, j :: 0 <= i < j < |owned| ==> owned[i].at != owned[j].at
  {
    InUseMembers(bs);
  }

  lemma FramesStayHeld(m: Memory, n: Memory, before: seq<nat>, after: seq<nat>, taken: seq<Word>)
    requires HoldsFrames(m, before, taken) && SparesHeld(m, n, before, after)
    ensures HoldsFrames(n, after, taken)
  {
    assert after[0] == before[0];
    forall i | 0 <= i < |taken|
      ensures HoldsFrame(n, after, taken[i])
    {
      assert HoldsFrame(m, before, taken[i]);
      assert DataFrame(m, taken[i] / PAGE_SIZE) && DataFrame(n, taken[i] / PAGE_SIZE);
    }
  }

  lemma FrameTaken(m: Memory, n: Memory, frames: seq<nat>, taken: seq<Word>, addr: Word)
    requires HoldsFrames(m, frames, taken) && n == m.(used := m.used + {addr / PAGE_SIZE})
    requires HoldsFrame(n, frames, addr) && addr / PAGE_SIZE !in m.used
    ensures HoldsFrames(n, frames, taken + [addr])
  {
    var more := taken + [addr];
    forall i | 0 <= i < |more|
      ensures HoldsFrame(n, frames, more[i]) && (i < |taken| ==> more[i] != addr)
    {
      if i < |taken| {
        assert HoldsFrame(m, frames, taken[i]);
      }
    }
  }

  lemma FrameGiven(m: Memory, frames: seq<nat>, taken: seq<Word>, k: nat)
    requires HoldsFrames(m, frames, taken) && k < |taken|
    ensures HoldsFrames(m.(used := m.used - {taken[k] / PAGE_SIZE}), frames, taken[..k] + taken[k + 1..])
  {
    var n, less := m.(used := m.used - {taken[k] / PAGE_SIZE}), taken[..k] + taken[k + 1..];
    assert HoldsFrame(m, frames, taken[k]);
    forall i | 0 <= i < |less|
      ensures HoldsFrame(n, frames, less[i])
    {
      var j := if i < k then i else i + 1;
      assert less[i] == taken[j] && HoldsFrame(m, frames, taken[j]);
      assert taken[j] == taken[j] / PAGE_SIZE * PAGE_SIZE && taken[k] == taken[k] / PAGE_SIZE * PAGE_SIZE;
    }
  }

  /** Stores to memory change neither the frames in use nor the tables. */
  lemma StoresSpareHeld(vm: AddressSpace, m: Memory, frames: seq<nat>)
    requires vm.Valid() && m.used == vm.pmm.Used() && m.dir == vm.directory[..] && |m.ram| == vm.ram.Length
    ensures SparesHeld(m, vm.Snapshot(), frames, frames)
  {
    assert forall f: nat :: DataFrame(m, f) ==> DataFrame(vm.Snapshot(), f);
  }

  // ---------------------------------------------------------------- the client

  class Client {
    const heap: KernelHeap
    var pointers: seq<Grant>
    /** The addresses of the frames that the client took. */
    var taken: seq<Word>
    ghost var owned: seq<Block>
    ghost var written: map<nat, Word>
    /** The used blocks of other owners, and the heap's memory, when the client started. */
    ghost const others: set<Block>
    ghost const start: map<nat, Word>

    ghost predicate Valid()
      reads this, heap, heap.vm.pmm.bitmap, heap.vm.directory, heap.vm.ram
    {
      && heap.Valid()
      && Holds(heap.blocks, pointers, owned, others)
      && Intact(start, heap.Memory(), others)
      && Remembered(heap.Memory(), owned, written)
      && HoldsFrames(heap.vm.Snapshot(), heap.frames, taken)
    }

    ghost function Now(): State
      reads this, heap
    {
      State(heap.Now(), pointers, owned, written)
    }

    /** Whether the heap cannot reach the framebuffer. */
    function Small(): bool {
      heap.vm.pmm.maxFrames <= MAX_FRAMES
    }

    constructor (heap: KernelHeap, pointers: seq<Grant>, taken: seq<Word>, ghost owned: seq<Block>, ghost others: set<Block>)
      requires heap.Valid() && Holds(heap.blocks, pointers, owned, others)
      requires HoldsFrames(heap.vm.Snapshot(), heap.frames, taken)
      ensures this.heap == heap && this.others == others && start == heap.Memory() && Valid()
      ensures Now() == State(heap.Now(), pointers, owned, map[]) && this.taken == taken
    {
      this.heap := heap;
      this.pointers, this.taken, this.owned, this.others := pointers, taken, owned, others;
      written := map[];
      start := heap.Memory();
    }

    /**
     * One step. The list, the pointers and what is written change as Served says; a kmalloc fails only
     * without a frame left, and no frame goes out of use but one that is given back.
     */
    method Do(a: Action) returns (ghost got: nat)
      requires Valid() && IsCallable(a)
      modifies this, heap`heapLimit, heap`frames, heap`blocks, heap.vm.pmm.bitmap, heap.vm.directory, heap.vm.ram
      ensures Valid() && Now() == Served(old(Now()), a, got, Small())
      ensures Fails(old(Now()), a, got, Small()) ==> heap.vm.OutOfFrames()
      ensures !a.GiveFrame? ==> old(heap.vm.pmm.Used()) <= heap.vm.pmm.Used()
      ensures match a
              case Map(va, pa) =>
                taken == old(taken)
                && (va < heap.firstBlock || VIDEO_VRT_ADDR <= va ==>
                      heap.vm.OutOfFrames() || heap.vm.Map() == old(heap.vm.Map())[va / PAGE_SIZE := pa / PAGE_SIZE])
              case TakeFrame =>
                if heap.vm.pmm.Used() == old(heap.vm.pmm.Used()) then
                  taken == old(taken) && heap.vm.OutOfFrames()
                else
                  exists addr :: taken == old(taken) + [addr] && heap.vm.pmm.Used() == old(heap.vm.pmm.Used()) + {addr / PAGE_SIZE}
              case GiveFrame(k) =>
                if k < |old(taken)| then
                  && taken == old(taken)[..k] + old(taken)[k + 1..]
                  && heap.vm.pmm.Used() == old(heap.vm.pmm.Used()) - {old(taken)[k] / PAGE_SIZE}
                else
                  taken == old(taken) && heap.vm.pmm.Used() == old(heap.vm.pmm.Used())
              case _ => taken == old(taken)
    {
      hide AddressSpace.Valid, Holds, Intact, Remembered, HoldsFrames, Served, Fails, KernelHeap.Valid;
      got := 0;
      SkippedSteps(Now(), a, Small());
      match a
      case Allocate(size) => got := DoAllocate(size);
      case Deallocate(k) => DoFree(k);
      case Write(k, offset, word) => DoWrite(k, offset, word);
      case Map(va, pa) => DoMap(va, pa);
      case TakeFrame => DoTakeFrame();
      case GiveFrame(k) => DoGiveFrame(k);
    }

    method DoAllocate(size: Word) returns (ghost got: nat)
      requires Valid() && Expandable(Round4(size))
      modifies this, heap`heapLimit, heap`frames, heap`blocks, heap.vm.pmm.bitmap, heap.vm.directory, heap.vm.ram
      ensures Valid() && Now() == Served(old(Now()), Allocate(size), got, Small()) && taken == old(taken)
      ensures Fails(old(Now()), Allocate(size), got, Small()) ==> heap.vm.OutOfFrames()
      ensures old(heap.vm.pmm.Used()) <= heap.vm.pmm.Used()
    {
      hide BackedBy, AddressSpace.Valid, KernelHeap.Memory, Linked, Sound, Holds, Intact, Remembered, HoldsFrames, SparesHeld, Granted, Step,
        Expandable, Round4, NeededPages, FirstFit;
      got := 0;
      var allowed := MayCall(size);
      if !allowed {
        return;
      }
      ghost var s, w, m, frames := Now(), heap.Memory(), heap.vm.Snapshot(), heap.frames;
      OthersInUse(heap.blocks, pointers, owned, others);
      var p, halted;
      p, halted, got := heap.Kmalloc(size);
      AfterMalloc(s, heap.firstBlock, size, got, Small(), others);
      IntactThrough(start, w, heap.Memory(), s.list.blocks, others);
      RememberedThrough(w, heap.Memory(), s.list.blocks, owned, written);
      RememberedMore(heap.Memory(), owned, Granted(s.list, size, got), written);
      FramesStayHeld(m, heap.vm.Snapshot(), frames, heap.frames, taken);
      AtMostOne(s.list, size, got);
      SparesHeldUsed(m, heap.vm.Snapshot(), frames, heap.frames);
      if p != 0 {
        pointers, owned := pointers + [Grant(p, size)], owned + Granted(s.list, size, got);
      }
      assert owned == s.owned + Granted(s.list, size, got);
      assert Now() == Served(s, Allocate(size), got, Small());
    }

    /** Whether the step applies: kmalloc finds a block, or may expand the heap. */
    method MayCall(size: Word) returns (allowed: bool)
      requires Valid()
      ensures allowed == Allowed(heap.Now(), Round4(size), Small())
      ensures allowed ==> heap.MayAllocate(Round4(size))
    {
      hide BackedBy, AddressSpace.Valid, KernelHeap.Memory, Linked, Sound, Holds, Intact, Remembered, HoldsFrames, Round4, NeededPages, FirstFit, Shape;
      var n := Round4(size);
      var current, last, available := heap.FindFit(n);
      if FirstFit(heap.blocks, n) < |heap.blocks| {
        heap.MemoryDomain();
        SoundParts(heap.Now(), heap.firstBlock);
        BlockIn(heap.blocks, heap.firstBlock, heap.heapLimit, FirstFit(heap.blocks, n));
      }
      allowed := n == 0 || current != 0 || heap.heapLimit + NeededPages(n) * PAGE_SIZE <= VIDEO_VRT_ADDR || Small();
    }

    method DoFree(k: nat)
      requires Valid()
      modifies this, heap`heapLimit, heap`frames, heap`blocks, heap.vm.pmm.bitmap, heap.vm.directory, heap.vm.ram
      ensures Valid() && Now() == Served(old(Now()), Deallocate(k), 0, Small()) && taken == old(taken)
      ensures old(heap.vm.pmm.Used()) <= heap.vm.pmm.Used()
    {
      hide BackedBy, AddressSpace.Valid, KernelHeap.Memory, Linked, Sound, Holds, Intact, Remembered, HoldsFrames, SparesHeld, Step;
      ghost var s, w, m := Now(), heap.Memory(), heap.vm.Snapshot();
      OthersInUse(heap.blocks, pointers, owned, others);
      HoldsMany(heap.blocks, pointers, owned, others);
      if k < |pointers| {
        OwnedPointer(heap.blocks, pointers, owned, others, k);
        OwnedBlock(heap, owned[k]);
        NoFrameTaken(heap.vm, heap.frames);
        heap.Kfree(pointers[k].pointer);
        AfterFree(s, heap.firstBlock, k, 0, Small(), others);
        MarkKeepsOthers(s.list.blocks, owned[k].at, others);
        IntactThrough(start, w, heap.Memory(), Mark(s.list.blocks, owned[k].at), others);
        MarkKeepsOwned(s.list.blocks, owned, k);
        RememberedLess(w, owned, k, written);
        ghost var less := owned[..k] + owned[k + 1..];
        RememberedThrough(w, heap.Memory(), Mark(s.list.blocks, owned[k].at), less, Outside(written, owned[k]));
        StoresSpareHeld(heap.vm, m, heap.frames);
        FramesStayHeld(m, heap.vm.Snapshot(), heap.frames, heap.frames, taken);
        pointers, written := pointers[..k] + pointers[k + 1..], Outside(written, owned[k]);
        owned := less;
      }
    }

    method DoWrite(k: nat, offset: nat, word: Word)
      requires Valid()
      modifies this, heap`heapLimit, heap`frames, heap`blocks, heap.vm.pmm.bitmap, heap.vm.directory, heap.vm.ram
      ensures Valid() && Now() == Served(old(Now()), Write(k, offset, word), 0, Small()) && taken == old(taken)
      ensures old(heap.vm.pmm.Used()) <= heap.vm.pmm.Used()
    {
      hide BackedBy, AddressSpace.Valid, KernelHeap.Memory, Linked, Sound, Holds, Intact, Remembered, HoldsFrames, SparesHeld, Shape;
      if k < |pointers| && offset % 4 == 0 && offset < pointers[k].size {
        ghost var w, m := heap.Memory(), heap.vm.Snapshot();
        OthersInUse(heap.blocks, pointers, owned, others);
        OwnedPointer(heap.blocks, pointers, owned, others, k);
        OwnedBlock(heap, owned[k]);
        NoFrameTaken(heap.vm, heap.frames);
        var a := pointers[k].pointer + offset;
        heap.StorePayload(pointers[k].pointer, a, word, owned[k]);
        IntactAfterWrite(start, w, heap.Memory(), others, owned[k]);
        RememberedWrite(w, owned, k, written, a, word);
        StoresSpareHeld(heap.vm, m, heap.frames);
        FramesStayHeld(m, heap.vm.Snapshot(), heap.frames, heap.frames, taken);
        written := written[a := word];
      }
    }

    method DoMap(virtualAddress: Word, physicalAddress: Word)
      requires Valid()
      modifies this, heap`heapLimit, heap`frames, heap`blocks, heap.vm.pmm.bitmap, heap.vm.directory, heap.vm.ram
      ensures Valid() && Now() == old(Now()) && taken == old(taken)
      ensures old(heap.vm.pmm.Used()) <= heap.vm.pmm.Used()
      ensures virtualAddress < heap.firstBlock || VIDEO_VRT_ADDR <= virtualAddress ==>
                || heap.vm.OutOfFrames()
                || heap.vm.Map() == old(heap.vm.Map())[virtualAddress / PAGE_SIZE := physicalAddress / PAGE_SIZE]
    {
      hide BackedBy, AddressSpace.Valid, KernelHeap.Memory, Linked, Sound, Holds, Intact, Remembered, HoldsFrames, SparesHeld, Keeps;
      if virtualAddress < heap.firstBlock || VIDEO_VRT_ADDR <= virtualAddress {
        ghost var m := heap.vm.Snapshot();
        var ok := heap.MapElsewhere(virtualAddress, physicalAddress);
        KeepsSparesHeld(m, heap.vm.Snapshot(), heap.frames);
        SparesHeldUsed(m, heap.vm.Snapshot(), heap.frames, heap.frames);
        FramesStayHeld(m, heap.vm.Snapshot(), heap.frames, heap.frames, taken);
      }
    }

    method DoTakeFrame()
      requires Valid()
      modifies this, heap`heapLimit, heap`frames, heap`blocks, heap.vm.pmm.bitmap, heap.vm.directory, heap.vm.ram
      ensures Valid() && Now() == old(Now())
      ensures old(heap.vm.pmm.Used()) <= heap.vm.pmm.Used()
      ensures if heap.vm.pmm.Used() == old(heap.vm.pmm.Used()) then
                taken == old(taken) && heap.vm.OutOfFrames()
              else
                exists addr :: taken == old(taken) + [addr] && heap.vm.pmm.Used() == old(heap.vm.pmm.Used()) + {addr / PAGE_SIZE}
    {
      hide BackedBy, AddressSpace.Valid, KernelHeap.Memory, Linked, Sound, Holds, Intact, Remembered, HoldsFrames, SparesHeld, DataFrame;
      ghost var m := heap.vm.Snapshot();
      FrameZeroUsed(heap.vm);
      var addr := heap.TakeFrame();
      if addr != 0 {
        FrameTaken(m, heap.vm.Snapshot(), heap.frames, taken, addr);
        taken := taken + [addr];
        assert addr / PAGE_SIZE in heap.vm.pmm.Used();
      } else {
        StoresSpareHeldWithZero(heap.vm, m, heap.frames);
        FramesStayHeld(m, heap.vm.Snapshot(), heap.frames, heap.frames, taken);
      }
    }

    method DoGiveFrame(k: nat)
      requires Valid()
      modifies this, heap`heapLimit, heap`frames, heap`blocks, heap.vm.pmm.bitmap, heap.vm.directory, heap.vm.ram
      ensures Valid() && Now() == old(Now())
      ensures if k < |old(taken)| then
                && taken == old(taken)[..k] + old(taken)[k + 1..]
                && heap.vm.pmm.Used() == old(heap.vm.pmm.Used()) - {old(taken)[k] / PAGE_SIZE}
              else
                taken == old(taken) && heap.vm.pmm.Used() == old(heap.vm.pmm.Used())
    {
      hide BackedBy, AddressSpace.Valid, KernelHeap.Memory, Linked, Sound, Holds, Intact, Remembered, DataFrame;
      if k < |taken| {
        assert HoldsFrame(heap.vm.Snapshot(), heap.frames, taken[k]);
        FrameGiven(heap.vm.Snapshot(), heap.frames, taken, k);
        heap.GiveFrame(taken[k]);
        taken := taken[..k] + taken[k + 1..];
      }
    }
  }

  lemma HoldsMany(bs: seq<Block>, pointers: seq<Grant>, owned: seq<Block>, others: set<Block>)
    requires Holds(bs, pointers, owned, others)
    ensures |owned| == |pointers|
  {
  }

  lemma SparesHeldUsed(m: Memory, n: Memory, before: seq<nat>, after: seq<nat>)
    requires SparesHeld(m, n, before, after)
    ensures m.used <= n.used
  {
  }

  lemma FrameZeroUsed(vm: AddressSpace)
    requires vm.Valid()
    ensures 0 in vm.pmm.Used()
  {
  }

  /** pmm_alloc_page without a frame left marks only frame 0, which is in use anyway. */
  lemma StoresSpareHeldWithZero(vm: AddressSpace, m: Memory, frames: seq<nat>)
    requires vm.Valid() && vm.Snapshot() == m.(used := m.used + {0}) && 0 in m.used
    ensures SparesHeld(m, vm.Snapshot(), frames, frames)
  {
    assert m.used + {0} == m.used;
  }

  lemma SkippedSteps(s: State, a: Action, small: bool)
    requires IsCallable(a)
    ensures a.Map? || a.TakeFrame? || a.GiveFrame? ==> Served(s, a, 0, small) == s
    ensures !a.Allocate? ==> forall got: nat :: !Fails(s, a, got, small)
  {
  }

  // ---------------------------------------------------------------- whole runs

  /**
   * Whatever a client does with its own pointers, new ones and ones it held at the start, with frames it took
   * and with pages elsewhere: the heap stays valid (backed, in shape, coalesced); the list, the pointers and
   * what the client wrote are those that the script says, and what it wrote is still there; every block of
   * another owner keeps its place, its size, its used status and its payload. With one block for the others and
   * all the rest for the client, this says that until its own kfree nothing changes a block. The bytes that no
   * block accounts for are bounded by the expansions made. If frames are left in the end, and none was given
   * back, no kmalloc has failed.
   */
  method RunClient(heap: KernelHeap, pointers: seq<Grant>, taken: seq<Word>, script: seq<Action>,
                   ghost owned: seq<Block>, ghost others: set<Block>)
    returns (left: seq<Grant>, leftTaken: seq<Word>, ghost gots: seq<nat>, ghost end: State)
    requires heap.Valid() && Holds(heap.blocks, pointers, owned, others)
    requires HoldsFrames(heap.vm.Snapshot(), heap.frames, taken)
    requires forall a <- script :: IsCallable(a)
    modifies heap`heapLimit, heap`frames, heap`blocks, heap.vm.pmm.bitmap, heap.vm.directory, heap.vm.ram
    ensures Runnable(script, gots)
    ensures var start, small := State(old(heap.Now()), pointers, owned, map[]), heap.vm.pmm.maxFrames <= MAX_FRAMES;
            && end == ServedAll(start, script, gots, small)
            && heap.Now() == Run(old(heap.Now()), CallsOfAll(start, script, gots, small))
            && Slack(heap.Now(), heap.firstBlock)
               <= Slack(old(heap.Now()), heap.firstBlock) + TotalSlack(old(heap.Now()), CallsOfAll(start, script, gots, small))
            && (FailsOnce(start, script, gots, small) && (forall a <- script :: !a.GiveFrame?) ==> heap.vm.OutOfFrames())
    ensures heap.Valid() && heap.Now() == end.list && left == end.pointers && Holds(heap.blocks, left, end.owned, others)
    ensures Remembered(heap.Memory(), end.owned, end.written)
    ensures HoldsFrames(heap.vm.Snapshot(), heap.frames, leftTaken)
    ensures forall b <- others :: b in heap.blocks && !b.free && SamePayload(old(heap.Memory()), heap.Memory(), b)
  {
    hide BackedBy, AddressSpace.Valid, KernelHeap.Memory, Linked, Sound, Holds, Remembered, HoldsFrames, Expandable, Round4,
      Served, Fails, FailsOnce, IsCallable, Slack, TotalSlack, CallsOfAll, Run, Pmm.FrameRange, Pmm.FrameBitmap.Used;
    var client := new Client(heap, pointers, taken, owned, others);
    ghost var start, small := client.Now(), client.Small();
    assert Sound(start.list, heap.firstBlock);
    gots := [];
    NothingServed(start, small);
    assert script[..0] == [];
    ghost var failed := false;
    for i := 0 to |script|
      invariant client.heap == heap && client.others == others && client.start == old(heap.Memory()) && client.Valid()
      invariant Runnable(script[..i], gots) && client.Now() == ServedAll(start, script[..i], gots, small)
      invariant failed <==> FailsOnce(start, script[..i], gots, small)
      invariant failed && (forall a <- script[..i] :: !a.GiveFrame?) ==> heap.vm.OutOfFrames()
    {
      assert script[i] in script && script[..i + 1] == script[..i] + [script[i]];
      ghost var before, used := client.Now(), heap.vm.pmm.Used();
      ghost var out := heap.vm.OutOfFrames();
      ghost var got := client.Do(script[i]);
      OneMore(start, script[..i], gots, small, script[i], got);
      StaysOut(heap.vm, used, out);
      failed := failed || Fails(before, script[i], got, small);
      gots := gots + [got];
    }
    assert script[..|script|] == script;
    OthersInUse(heap.blocks, client.pointers, client.owned, client.others);
    left, leftTaken, end := client.pointers, client.taken, client.Now();
    ScriptLaws(start, heap.firstBlock, script, gots, small);
  }

  lemma StaysOut(vm: AddressSpace, used: set<nat>, out: bool)
    requires out ==> Pmm.FrameRange(0, Pmm.ScannedFrames(vm.pmm.maxFrames)) <= used
    ensures out && used <= vm.pmm.Used() ==> vm.OutOfFrames()
  {
  }
}
