/**
 * The heap's block list as values: what kmalloc, kfree and expand_heap do to it, and the laws of
 * those changes over every list and every order of calls.
 */
module Blocks {
  import opened Words

  /** sizeof(heap_block_t) on i686 */
  const HEADER := 16

  /** A header at address `at`, followed by `size` bytes of payload. */
  datatype Block = Block(at: nat, size: nat, free: bool) {
    function End(): nat { at + HEADER + size }
    function Payload(): nat { at + HEADER }
  }

  predicate Aligned(b: Block) {
    b.at % 4 == 0 && b.size % 4 == 0
  }

  /** Aligned blocks in address order within [low, high); none overlaps another. */
  predicate Chain(bs: seq<Block>, low: nat, high: nat) {
    && (forall b <- bs :: Aligned(b) && low <= b.at && b.End() <= high)
    && (forall i, j :: 0 <= i < j < |bs| ==> bs[i].End() <= bs[j].at)
  }

  /** A heap's list: a chain that starts with a block at its low end. */
  predicate Shape(bs: seq<Block>, low: nat, high: nat) {
    |bs| > 0 && bs[0].at == low && Chain(bs, low, high)
  }

  /** No two neighbours in the list are both free. */
  predicate Coalesced(bs: seq<Block>) {
    forall i :: 0 < i < |bs| ==> !(bs[i - 1].free && bs[i].free)
  }

  /** Bytes that the list accounts for, headers included. */
  function Bytes(bs: seq<Block>): nat {
    if bs == [] then 0 else HEADER + bs[0].size + Bytes(bs[1..])
  }

  /** The blocks in use, in order. */
  function InUse(bs: seq<Block>): seq<Block> {
    if bs == [] then []
    else if bs[0].free then InUse(bs[1..])
    else [bs[0]] + InUse(bs[1..])
  }

  // ---------------------------------------------------------------- kmalloc

  /** `(size + 3) & ~3`, with the wrap-around of 32-bit addition. */
  function Round4(n: Word): (m: Word)
    ensures m % 4 == 0
    ensures n <= WORD_LIMIT - 4 ==> n <= m < n + 4
    ensures n > WORD_LIMIT - 4 ==> m == 0
  {
    var s := (n + 3) % WORD_LIMIT;
    s - s % 4
  }

  predicate Fits(b: Block, n: nat) {
    b.free && b.size >= n
  }

  /** Index of the first free block of at least n bytes, or |bs|. */
  function FirstFit(bs: seq<Block>, n: nat): (i: nat)
    ensures i <= |bs| && (i < |bs| ==> bs[i].free && bs[i].size >= n)
    ensures forall j :: 0 <= j < i ==> !(bs[j].free && bs[j].size >= n)
  {
    if bs == [] || Fits(bs[0], n) then 0 else 1 + FirstFit(bs[1..], n)
  }

  lemma {:induction false} FirstFitIs(done: seq<Block>, ahead: seq<Block>, n: nat)
    requires forall b <- done :: !Fits(b, n)
    requires ahead == [] || Fits(ahead[0], n)
    ensures FirstFit(done + ahead, n) == |done|
  {
    if done == [] {
      assert done + ahead == ahead;
    } else {
      assert done[0] in done && (done + ahead)[1..] == done[1..] + ahead;
      FirstFitIs(done[1..], ahead, n);
    }
  }

  /** A free block used for n bytes; what is left is split off if it can hold a block of at least 4 bytes. */
  function Split(b: Block, n: nat): seq<Block>
    requires Fits(b, n)
  {
    if b.size - n >= HEADER + 4 then
      [Block(b.at, n, false), Block(b.at + HEADER + n, b.size - n - HEADER, true)]
    else
      [b.(free := false)]
  }

  /** The used block that Split puts first. */
  function Taken(b: Block, n: nat): Block
    requires Fits(b, n)
  {
    Split(b, n)[0]
  }

  function Take(bs: seq<Block>, i: nat, n: nat): seq<Block>
    requires i < |bs| && Fits(bs[i], n)
  {
    bs[..i] + Split(bs[i], n) + bs[i + 1..]
  }

  /** How many pages expand_heap asks for: sums of 32-bit words wrap around. */
  function NeededPages(n: Word): nat {
    ((n + HEADER) % WORD_LIMIT + PAGE_SIZE - 1) % WORD_LIMIT / PAGE_SIZE
  }

  /** The requests for which those sums do not wrap. */
  predicate Expandable(n: nat) {
    n + HEADER + PAGE_SIZE - 1 < WORD_LIMIT
  }

  /** The pages hold the block exactly when nothing wraps. */
  lemma PagesHoldBlockIff(n: Word)
    ensures NeededPages(n) * PAGE_SIZE >= n + HEADER <==> Expandable(n)
    ensures Expandable(n) ==> NeededPages(n) * PAGE_SIZE < n + HEADER + PAGE_SIZE
  {
  }

  /** Bytes of the new pages behind the new block. */
  function Leftover(n: Word): nat
    requires Expandable(n)
  {
    PagesHoldBlockIff(n);
    NeededPages(n) * PAGE_SIZE - (n + HEADER)
  }

  /** expand_heap: a used block at `limit`, and a free one behind it if more than 20 bytes are left. */
  function Fresh(limit: nat, n: Word): seq<Block>
    requires Expandable(n)
  {
    [Block(limit, n, false)]
    + if Leftover(n) > HEADER + 4 then [Block(limit + HEADER + n, Leftover(n) - HEADER, true)] else []
  }

  function Grow(bs: seq<Block>, limit: nat, n: Word): seq<Block>
    requires Expandable(n)
  {
    bs + Fresh(limit, n)
  }

  // ---------------------------------------------------------------- kfree

  function Merge(a: Block, b: Block): Block {
    a.(size := a.size + HEADER + b.size)
  }

  /** coalesce_free_blocks */
  function Coalesce(bs: seq<Block>): seq<Block>
    decreases |bs|
  {
    if |bs| < 2 then
      bs
    else if bs[0].free && bs[1].free then
      Coalesce([Merge(bs[0], bs[1])] + bs[2..])
    else
      [bs[0]] + Coalesce(bs[1..])
  }

  /** The list with the block at address `at` marked free. */
  function Mark(bs: seq<Block>, at: nat): seq<Block> {
    if bs == [] then
      []
    else
      [if bs[0].at == at then bs[0].(free := true) else bs[0]] + Mark(bs[1..], at)
  }

  /** kfree of the block whose header is at `at` */
  function Release(bs: seq<Block>, at: nat): seq<Block> {
    Coalesce(Mark(bs, at))
  }

  // ---------------------------------------------------------------- laws of the single steps

  lemma {:induction false} BytesAppend(a: seq<Block>, b: seq<Block>)
    ensures Bytes(a + b) == Bytes(a) + Bytes(b)
  {
    if a == [] {
      assert a + b == b;
    } else {
      BytesAppend(a[1..], b);
      assert (a + b)[1..] == a[1..] + b;
    }
  }

  lemma {:induction false} InUseAppend(a: seq<Block>, b: seq<Block>)
    ensures InUse(a + b) == InUse(a) + InUse(b)
  {
    if a == [] {
      assert a + b == b;
    } else {
      InUseAppend(a[1..], b);
      assert (a + b)[1..] == a[1..] + b;
      assert [a[0]] + (InUse(a[1..]) + InUse(b)) == [a[0]] + InUse(a[1..]) + InUse(b);
    }
  }

  lemma {:induction false} InUseMembers(bs: seq<Block>)
    ensures forall b :: b in InUse(bs) <==> b in bs && !b.free
  {
    if bs != [] {
      InUseMembers(bs[1..]);
      assert forall b :: b in bs <==> b == bs[0] || b in bs[1..];
    }
  }

  lemma Around(bs: seq<Block>, i: nat, x: seq<Block>)
    requires i < |bs|
    ensures bs == bs[..i] + [bs[i]] + bs[i + 1..]
    ensures Bytes(bs[..i] + x + bs[i + 1..]) == Bytes(bs[..i]) + Bytes(x) + Bytes(bs[i + 1..])
    ensures InUse(bs[..i] + x + bs[i + 1..]) == InUse(bs[..i]) + InUse(x) + InUse(bs[i + 1..])
  {
    hide Bytes, InUse;
    BytesAppend(bs[..i] + x, bs[i + 1..]);
    BytesAppend(bs[..i], x);
    InUseAppend(bs[..i] + x, bs[i + 1..]);
    InUseAppend(bs[..i], x);
  }

  lemma One(b: Block)
    ensures Bytes([b]) == HEADER + b.size && InUse([b]) == if b.free then [] else [b]
  {
  }

  lemma SplitCounts(b: Block, n: nat)
    requires Fits(b, n)
    ensures Bytes(Split(b, n)) == HEADER + b.size
    ensures InUse(Split(b, n)) == [Taken(b, n)]
  {
    var s := Split(b, n);
    One(s[0]);
    if |s| == 2 {
      One(s[1]);
      BytesAppend([s[0]], [s[1]]);
      InUseAppend([s[0]], [s[1]]);
      assert s == [s[0]] + [s[1]];
    } else {
      assert s == [s[0]];
    }
  }

  /** Splitting a block, or using it whole, accounts for the same bytes and adds one used block. */
  lemma TakeCounts(bs: seq<Block>, i: nat, n: nat)
    requires i < |bs| && Fits(bs[i], n)
    ensures Bytes(Take(bs, i, n)) == Bytes(bs)
    ensures InUse(Take(bs, i, n)) == InUse(bs[..i]) + [Taken(bs[i], n)] + InUse(bs[i + 1..])
    ensures InUse(bs) == InUse(bs[..i]) + InUse(bs[i + 1..])
  {
    SplitCounts(bs[i], n);
    Around(bs, i, [bs[i]]);
    Around(bs, i, Split(bs[i], n));
    One(bs[i]);
    assert InUse(bs[..i]) + [] == InUse(bs[..i]);
  }

  lemma TakeShape(bs: seq<Block>, low: nat, high: nat, i: nat, n: nat)
    requires Shape(bs, low, high) && i < |bs| && Fits(bs[i], n) && n % 4 == 0
    ensures Shape(Take(bs, i, n), low, high)
  {
    hide Chain, Aligned;
    ChainAround(bs, low, high, i);
    SplitChain(bs[i], n);
    ChainAppend(bs[..i], Split(bs[i], n), low, bs[i].at, bs[i].End());
    ChainAppend(bs[..i] + Split(bs[i], n), bs[i + 1..], low, bs[i].End(), high);
  }

  lemma SplitChain(b: Block, n: nat)
    requires Fits(b, n) && n % 4 == 0 && Aligned(b)
    ensures Chain(Split(b, n), b.at, b.End())
  {
  }

  lemma ChainAppend(a: seq<Block>, b: seq<Block>, low: nat, middle: nat, high: nat)
    requires Chain(a, low, middle) && Chain(b, middle, high) && low <= middle <= high
    ensures Chain(a + b, low, high)
  {
  }

  lemma ChainFromFirst(bs: seq<Block>, low: nat, high: nat)
    requires Chain(bs, low, high) && |bs| > 0
    ensures Chain(bs, bs[0].at, high) && low <= bs[0].at
  {
    assert bs[0] in bs;
  }

  lemma ChainAround(bs: seq<Block>, low: nat, high: nat, i: nat)
    requires Chain(bs, low, high) && i < |bs|
    ensures Chain(bs[..i], low, bs[i].at) && Chain(bs[i + 1..], bs[i].End(), high)
    ensures low <= bs[i].at && bs[i].End() <= high && Aligned(bs[i])
  {
    assert bs[i] in bs;
  }

  lemma TakeCoalesced(bs: seq<Block>, i: nat, n: nat)
    requires Coalesced(bs) && i < |bs| && Fits(bs[i], n)
    ensures Coalesced(Take(bs, i, n))
  {
    var after, k := Take(bs, i, n), |Split(bs[i], n)|;
    forall j | 0 < j < |after|
      ensures !(after[j - 1].free && after[j].free)
    {
      if j > i + k {
        assert after[j - 1] == bs[j - k] && after[j] == bs[j - k + 1];
      } else if j == i + k {
        assert after[j] == bs[i + 1];
      } else if j < i {
        assert after[j - 1] == bs[j - 1] && after[j] == bs[j];
      }
    }
  }

  /** Growing adds the bytes of the new pages, less a slack of at most 20. */
  lemma GrowCounts(bs: seq<Block>, limit: nat, n: Word)
    requires Expandable(n) && n % 4 == 0
    ensures var added := NeededPages(n) * PAGE_SIZE;
            Bytes(bs) + added - 20 <= Bytes(Grow(bs, limit, n)) <= Bytes(bs) + added
    ensures InUse(Grow(bs, limit, n)) == InUse(bs) + [Block(limit, n, false)]
  {
    var f := Fresh(limit, n);
    BytesAppend(bs, f);
    InUseAppend(bs, f);
    One(f[0]);
    if |f| == 2 {
      One(f[1]);
      BytesAppend([f[0]], [f[1]]);
      InUseAppend([f[0]], [f[1]]);
      assert f == [f[0]] + [f[1]];
    } else {
      assert f == [f[0]];
    }
  }

  lemma FreshChain(limit: nat, n: Word)
    requires limit % 4 == 0 && n % 4 == 0 && Expandable(n)
    ensures Chain(Fresh(limit, n), limit, limit + NeededPages(n) * PAGE_SIZE)
  {
    hide Leftover, NeededPages, Expandable, Chain;
    LeftoverIs(n);
    BlockAndTail(limit, n, Leftover(n));
  }

  lemma BlockAndTail(limit: nat, n: nat, left: nat)
    requires limit % 4 == 0 && n % 4 == 0 && left % 4 == 0
    ensures Chain([Block(limit, n, false)] + (if left > HEADER + 4 then [Block(limit + HEADER + n, left - HEADER, true)] else []),
                  limit, limit + (n + HEADER + left))
  {
    hide Aligned;
    AlignedAt(limit, n, false);
    if left > HEADER + 4 {
      AlignedAt(limit + HEADER + n, left - HEADER, true);
    }
  }

  lemma LeftoverIs(n: Word)
    requires Expandable(n) && n % 4 == 0
    ensures n + HEADER + Leftover(n) == NeededPages(n) * PAGE_SIZE && Leftover(n) % 4 == 0
  {
  }

  lemma AlignedAt(at: nat, size: nat, free: bool)
    requires at % 4 == 0 && size % 4 == 0
    ensures Aligned(Block(at, size, free))
  {
  }

  lemma GrowShape(bs: seq<Block>, low: nat, limit: nat, n: Word)
    requires Shape(bs, low, limit) && limit % 4 == 0 && n % 4 == 0 && Expandable(n)
    ensures Shape(Grow(bs, limit, n), low, limit + NeededPages(n) * PAGE_SIZE)
  {
    FreshChain(limit, n);
    assert bs[0] in bs;
    ChainAppend(bs, Fresh(limit, n), low, limit, limit + NeededPages(n) * PAGE_SIZE);
  }

  lemma GrowCoalesced(bs: seq<Block>, limit: nat, n: Word)
    requires Coalesced(bs) && Expandable(n)
    ensures Coalesced(Grow(bs, limit, n))
  {
  }

  // ---------------------------------------------------------------- laws of coalescing

  /** coalesce_free_blocks leaves no two free neighbours and keeps the list in its range. */
  lemma {:induction false} CoalesceShape(bs: seq<Block>, low: nat, high: nat)
    requires Shape(bs, low, high)
    ensures Shape(Coalesce(bs), low, high) && Coalesced(Coalesce(bs))
    ensures Coalesce(bs)[0].free == bs[0].free
    decreases |bs|
  {
    hide Shape, Chain, Coalesced, Merge;
    if |bs| < 2 {
      ShortIsCoalesced(bs, low, high);
    } else if bs[0].free && bs[1].free {
      HeadMerges(bs, low, high);
      CoalesceShape([Merge(bs[0], bs[1])] + bs[2..], low, high);
    } else {
      TailShape(bs, low, high);
      CoalesceShape(bs[1..], bs[1].at, high);
      HeadShape(bs, low, high, Coalesce(bs[1..]));
      CoalescedCons(bs[0], Coalesce(bs[1..]));
    }
  }

  lemma ShortIsCoalesced(bs: seq<Block>, low: nat, high: nat)
    requires Shape(bs, low, high) && |bs| < 2
    ensures Coalesced(bs) && bs != []
  {
  }

  lemma HeadMerges(bs: seq<Block>, low: nat, high: nat)
    requires Shape(bs, low, high) && |bs| >= 2
    ensures Shape([Merge(bs[0], bs[1])] + bs[2..], low, high) && Merge(bs[0], bs[1]).free == bs[0].free
  {
    assert bs == [] + [bs[0], bs[1]] + bs[2..];
    MergeShape([], bs[0], bs[1], bs[2..], low, high);
    assert [] + [Merge(bs[0], bs[1])] + bs[2..] == [Merge(bs[0], bs[1])] + bs[2..];
  }

  lemma TailShape(bs: seq<Block>, low: nat, high: nat)
    requires Shape(bs, low, high) && |bs| >= 2
    ensures Shape(bs[1..], bs[1].at, high)
  {
    ChainAround(bs, low, high, 0);
    ChainFromFirst(bs[1..], bs[0].End(), high);
  }

  /** The first block in front of what the rest of the list has become. */
  lemma HeadShape(bs: seq<Block>, low: nat, high: nat, rest: seq<Block>)
    requires Shape(bs, low, high) && |bs| >= 2 && Shape(rest, bs[1].at, high)
    ensures Shape([bs[0]] + rest, low, high) && rest != []
  {
    ChainAround(bs, low, high, 1);
    assert Chain([bs[0]], low, bs[1].at) by { assert bs[..1] == [bs[0]]; }
    assert low <= bs[1].at <= high;
    ChainAppend([bs[0]], rest, low, bs[1].at, high);
  }

  lemma CoalescedCons(b: Block, rest: seq<Block>)
    requires Coalesced(rest) && (rest != [] ==> !(b.free && rest[0].free))
    ensures Coalesced([b] + rest)
  {
    forall i | 0 < i < |[b] + rest|
      ensures !(([b] + rest)[i - 1].free && ([b] + rest)[i].free)
    {
      assert i > 1 ==> ([b] + rest)[i - 1] == rest[i - 2] && ([b] + rest)[i] == rest[i - 1];
    }
  }

  /** coalesce_free_blocks accounts for the same bytes and keeps every used block as it is, in order. */
  lemma {:induction false} CoalesceCounts(bs: seq<Block>)
    ensures Bytes(Coalesce(bs)) == Bytes(bs) && InUse(Coalesce(bs)) == InUse(bs)
    decreases |bs|
  {
    if |bs| >= 2 {
      if bs[0].free && bs[1].free {
        var merged := [Merge(bs[0], bs[1])] + bs[2..];
        CoalesceCounts(merged);
        assert bs[1..][1..] == bs[2..] && merged[1..] == bs[2..];
      } else {
        CoalesceCounts(bs[1..]);
        assert ([bs[0]] + Coalesce(bs[1..]))[1..] == Coalesce(bs[1..]);
      }
    }
  }

  /** One merge of coalesce_free_blocks, in the middle of a list. */
  lemma MergeShape(done: seq<Block>, a: Block, b: Block, rest: seq<Block>, low: nat, high: nat)
    requires Shape(done + [a, b] + rest, low, high)
    ensures Shape(done + [Merge(a, b)] + rest, low, high)
    ensures Chain(done, low, a.at) && Chain(rest, Merge(a, b).End(), high)
  {
    hide Chain, Aligned, Merge;
    MergeChain(done, a, b, rest, low, high);
    MergedChain(a, b);
    ChainAppend(done, [Merge(a, b)], low, a.at, b.End());
    ChainAppend(done + [Merge(a, b)], rest, low, b.End(), high);
    ChainFromLower(rest, Merge(a, b).End(), b.End(), high);
    assert done == [] ==> (done + [a, b] + rest)[0] == a;
  }

  lemma ChainFromLower(bs: seq<Block>, lower: nat, low: nat, high: nat)
    requires Chain(bs, low, high) && lower <= low
    ensures Chain(bs, lower, high)
  {
  }

  /** Two blocks in order, merged, end where the second one ended, or before. */
  lemma MergedChain(a: Block, b: Block)
    requires Aligned(a) && Aligned(b) && a.End() <= b.at
    ensures Merge(a, b).at == a.at && Merge(a, b).End() <= b.End() && Chain([Merge(a, b)], a.at, b.End())
  {
  }

  lemma MergeInUse(done: seq<Block>, a: Block, b: Block, rest: seq<Block>)
    requires a.free && b.free
    ensures InUse(done + [Merge(a, b)] + rest) == InUse(done + [a, b] + rest)
  {
    InUseAppend(done + [Merge(a, b)], rest);
    InUseAppend(done, [Merge(a, b)]);
    InUseAppend(done + [a, b], rest);
    InUseAppend(done, [a, b]);
    InUseAppend([a], [b]);
    One(a);
    One(b);
    One(Merge(a, b));
    assert [a, b] == [a] + [b];
  }

  /** A merge is one step of Coalesce, and leaves the used blocks alone. */
  lemma CoalesceMerges(done: seq<Block>, a: Block, b: Block, rest: seq<Block>)
    requires a.free && b.free
    ensures var ahead := [Merge(a, b)] + rest;
            && ahead[0].at == a.at && done + [Merge(a, b)] + rest == done + ahead && |ahead| == |rest| + 1
            && Coalesce(ahead) == Coalesce([a, b] + rest)
            && InUse(done + ahead) == InUse(done + [a, b] + rest)
  {
    MergeInUse(done, a, b, rest);
    assert done + [Merge(a, b)] + rest == done + ([Merge(a, b)] + rest);
    assert ([a, b] + rest)[2..] == rest;
  }

  lemma Advance(done: seq<Block>, ahead: seq<Block>)
    requires ahead != []
    ensures done + [ahead[0]] + ahead[1..] == done + ahead
  {
  }

  lemma AheadParts(done: seq<Block>, ahead: seq<Block>)
    requires |ahead| >= 2
    ensures done + ahead == done + [ahead[0], ahead[1]] + ahead[2..]
    ensures ahead == [ahead[0], ahead[1]] + ahead[2..]
    ensures done + [ahead[0]] + ahead[1..] == done + ahead
  {
  }

  lemma CoalesceAdvances(done: seq<Block>, ahead: seq<Block>)
    requires |ahead| >= 2 && !(ahead[0].free && ahead[1].free)
    ensures done + [ahead[0]] + Coalesce(ahead[1..]) == done + Coalesce(ahead)
  {
  }

  lemma MergeChain(done: seq<Block>, a: Block, b: Block, rest: seq<Block>, low: nat, high: nat)
    requires Shape(done + [a, b] + rest, low, high)
    ensures Chain(done, low, a.at) && low <= a.at && Aligned(a) && Aligned(b)
    ensures a.End() <= b.at && b.End() <= high && Chain(rest, b.End(), high)
  {
    var bs := done + [a, b] + rest;
    assert bs[|done|] == a && bs[|done| + 1] == b;
    ChainAround(bs, low, high, |done|);
    ChainAround(bs, low, high, |done| + 1);
    assert bs[..|done|] == done && bs[|done| + 2..] == rest;
  }

  /** Mark changes the one block at its address. */
  lemma MarkOne(a: seq<Block>, b: Block, c: seq<Block>, low: nat, high: nat)
    requires Chain(a, low, b.at) && Chain(c, b.End(), high)
    ensures Mark(a + [b] + c, b.at) == a + [b.(free := true)] + c
  {
    hide Mark;
    MarkAppend(a + [b], c, b.at);
    MarkAppend(a, [b], b.at);
    assert Mark([b], b.at) == [b.(free := true)] by { MarkSingle(b); }
    MarkAbsent(a, b.at);
    MarkAbsent(c, b.at);
  }

  lemma MarkSingle(b: Block)
    ensures Mark([b], b.at) == [b.(free := true)]
  {
  }

  lemma {:induction false} MarkAppend(a: seq<Block>, b: seq<Block>, at: nat)
    ensures Mark(a + b, at) == Mark(a, at) + Mark(b, at)
  {
    if a == [] {
      assert a + b == b;
    } else {
      MarkAppend(a[1..], b, at);
      assert (a + b)[1..] == a[1..] + b;
    }
  }

  lemma {:induction false} MarkKeeps(bs: seq<Block>, at: nat, c: Block)
    requires c in bs && c.at != at
    ensures c in Mark(bs, at)
  {
    if c != bs[0] {
      assert c in bs[1..];
      MarkKeeps(bs[1..], at, c);
    }
  }

  lemma {:induction false} MarkAbsent(bs: seq<Block>, at: nat)
    requires forall b <- bs :: b.at != at
    ensures Mark(bs, at) == bs
  {
    if bs != [] {
      assert bs[0] in bs;
      MarkAbsent(bs[1..], at);
    }
  }

  // ---------------------------------------------------------------- laws of kfree

  /** The blocks of us that do not lie at `at`. */
  function Without(us: seq<Block>, at: nat): seq<Block> {
    if us == [] then []
    else if us[0].at == at then Without(us[1..], at)
    else [us[0]] + Without(us[1..], at)
  }

  lemma {:induction false} MarkShape(bs: seq<Block>, low: nat, high: nat, at: nat)
    requires Chain(bs, low, high)
    ensures Chain(Mark(bs, at), low, high) && |Mark(bs, at)| == |bs|
    ensures bs != [] ==> Mark(bs, at)[0].at == bs[0].at
  {
    if bs != [] {
      ChainAround(bs, low, high, 0);
      MarkShape(bs[1..], bs[0].End(), high, at);
      ChainAppend([Mark(bs, at)[0]], Mark(bs[1..], at), low, bs[0].End(), high);
    }
  }

  lemma {:induction false} MarkBytes(bs: seq<Block>, at: nat)
    ensures Bytes(Mark(bs, at)) == Bytes(bs)
  {
    if bs != [] {
      MarkBytes(bs[1..], at);
      assert Mark(bs, at)[1..] == Mark(bs[1..], at);
    }
  }

  lemma {:induction false} MarkInUse(bs: seq<Block>, at: nat)
    ensures InUse(Mark(bs, at)) == Without(InUse(bs), at)
  {
    if bs != [] {
      var rest := bs[1..];
      MarkInUse(rest, at);
      assert Mark(bs, at)[1..] == Mark(rest, at);
      if bs[0].free {
        assert InUse(bs) == InUse(rest);
      } else {
        assert InUse(bs)[1..] == InUse(rest);
      }
    }
  }

  /** One kfree: the freed block is the only one that leaves the used blocks. */
  lemma ReleaseLaws(bs: seq<Block>, low: nat, high: nat, at: nat)
    requires Shape(bs, low, high)
    ensures Shape(Release(bs, at), low, high) && Coalesced(Release(bs, at))
    ensures Bytes(Release(bs, at)) == Bytes(bs)
    ensures InUse(Release(bs, at)) == Without(InUse(bs), at)
  {
    MarkShape(bs, low, high, at);
    MarkBytes(bs, at);
    MarkInUse(bs, at);
    CoalesceShape(Mark(bs, at), low, high);
    CoalesceCounts(Mark(bs, at));
  }

  function ReleaseAll(bs: seq<Block>, order: seq<nat>): seq<Block>
    decreases |order|
  {
    if order == [] then bs else ReleaseAll(Release(bs, order[0]), order[1..])
  }

  lemma {:induction false} WithoutMembers(us: seq<Block>, at: nat)
    ensures forall b :: b in Without(us, at) <==> b in us && b.at != at
  {
    if us != [] {
      WithoutMembers(us[1..], at);
      assert forall b :: b in us <==> b == us[0] || b in us[1..];
    }
  }

  /** Freeing every used block, in any order, leaves one free block that holds all the bytes. */
  lemma {:induction false} FreeingAllLeavesOneBlock(bs: seq<Block>, low: nat, high: nat, order: seq<nat>)
    requires Shape(bs, low, high) && Coalesced(bs)
    requires forall b <- InUse(bs) :: b.at in order
    ensures Bytes(bs) >= HEADER
    ensures ReleaseAll(bs, order) == [Block(low, Bytes(bs) - HEADER, true)]
    decreases |order|
  {
    hide Shape, Coalesced, Release, Without, InUse, Bytes;
    if order == [] {
      NothingInUse(bs, low, high);
    } else {
      ReleaseLaws(bs, low, high, order[0]);
      WithoutMembers(InUse(bs), order[0]);
      FreeingAllLeavesOneBlock(Release(bs, order[0]), low, high, order[1..]);
    }
  }

  lemma TwoBlocksOneUsed(bs: seq<Block>)
    requires |bs| > 1 && Coalesced(bs)
    ensures exists b <- bs :: !b.free
  {
    var i := if bs[0].free then 1 else 0;
    assert bs[i] in bs && !bs[i].free;
  }

  lemma NothingInUse(bs: seq<Block>, low: nat, high: nat)
    requires Shape(bs, low, high) && Coalesced(bs)
    requires forall b :: b !in InUse(bs)
    ensures Bytes(bs) >= HEADER && bs == [Block(low, Bytes(bs) - HEADER, true)]
  {
    InUseMembers(bs);
    if |bs| > 1 {
      TwoBlocksOneUsed(bs);
      assert false;
    }
    assert bs[0] in bs;
    One(bs[0]);
    assert bs == [bs[0]];
  }

  // ---------------------------------------------------------------- runs

  /**
   * A call on the heap. `frames` is how many new pages the frame allocator could give to this call
   * before it ran out; an expansion that needs more fails and keeps the pages it got mapped.
   */
  datatype Call = Malloc(n: Word, frames: nat) | Free(at: nat)

  datatype List = List(blocks: seq<Block>, limit: nat)

  function Step(s: List, c: Call): List
    requires c.Malloc? ==> Expandable(Round4(c.n))
  {
    match c
    case Malloc(n, frames) =>
      var m := Round4(n);
      var i := FirstFit(s.blocks, m);
      if m == 0 then
        s
      else if i < |s.blocks| then
        List(Take(s.blocks, i, m), s.limit)
      else if NeededPages(m) <= frames then
        List(Grow(s.blocks, s.limit, m), s.limit + NeededPages(m) * PAGE_SIZE)
      else
        List(s.blocks, s.limit + frames * PAGE_SIZE)
    case Free(at) =>
      List(Release(s.blocks, at), s.limit)
  }

  /** The block that a call of kmalloc hands out, if any. */
  function Granted(s: List, n: Word, frames: nat): seq<Block>
    requires Expandable(Round4(n))
  {
    var m := Round4(n);
    var i := FirstFit(s.blocks, m);
    if m == 0 then
      []
    else if i < |s.blocks| then
      [Taken(s.blocks[i], m)]
    else if NeededPages(m) <= frames then
      [Block(s.limit, m, false)]
    else
      []
  }

  /** What kmalloc hands out is large enough and 4-aligned. */
  lemma GrantIsLarge(s: List, low: nat, n: Word, frames: nat, b: Block)
    requires Sound(s, low) && Expandable(Round4(n)) && Granted(s, n, frames) == [b]
    ensures b in Step(s, Malloc(n, frames)).blocks && !b.free && b.size >= n && Aligned(b)
  {
    hide Sound, Round4, Shape, Coalesced, InUse, Take, Taken, Grow, NeededPages, FirstFit, Aligned;
    SoundParts(s, low);
    var m := Round4(n);
    var i := FirstFit(s.blocks, m);
    if i < |s.blocks| {
      TakenBlock(s.blocks, low, s.limit, i, m);
    } else {
      GrownBlock(s.blocks, low, s.limit, m);
    }
  }

  /** It is the only block that comes into use. */
  lemma GrantIsOneMore(s: List, low: nat, n: Word, frames: nat, b: Block)
    requires Sound(s, low) && Expandable(Round4(n)) && Granted(s, n, frames) == [b]
    ensures multiset(InUse(Step(s, Malloc(n, frames)).blocks)) == multiset(InUse(s.blocks)) + multiset{b}
  {
    hide Sound, Round4, Shape, Coalesced, InUse, Take, Taken, Grow, NeededPages, FirstFit, Aligned;
    SoundParts(s, low);
    var m := Round4(n);
    var i := FirstFit(s.blocks, m);
    if i < |s.blocks| {
      TakenBlock(s.blocks, low, s.limit, i, m);
    } else {
      GrownBlock(s.blocks, low, s.limit, m);
    }
  }

  /** It overlaps neither the header nor the payload of any other block. */
  lemma GrantIsApart(s: List, low: nat, n: Word, frames: nat, b: Block)
    requires Sound(s, low) && Expandable(Round4(n)) && Granted(s, n, frames) == [b]
    ensures forall c <- Step(s, Malloc(n, frames)).blocks :: c != b ==> c.End() <= b.at || b.End() <= c.at
  {
    hide Shape, Chain, Coalesced, InUse, Granted, Step;
    GrantIsLarge(s, low, n, frames, b);
    StepSound(s, low, Malloc(n, frames));
    var after := Step(s, Malloc(n, frames));
    BlocksApart(after.blocks, low, after.limit, b);
  }

  /** It lies where no block in use was. */
  lemma GrantIsNew(s: List, low: nat, n: Word, frames: nat, b: Block)
    requires Sound(s, low) && Expandable(Round4(n)) && Granted(s, n, frames) == [b]
    ensures forall c <- InUse(s.blocks) :: c.at != b.at
  {
    hide Sound, Round4, Coalesced, Split, Taken, NeededPages, FirstFit;
    SoundParts(s, low);
    InUseMembers(s.blocks);
    var i := FirstFit(s.blocks, Round4(n));
    if i < |s.blocks| {
      TakenBlock(s.blocks, low, s.limit, i, Round4(n));
      BlocksApart(s.blocks, low, s.limit, s.blocks[i]);
    }
  }

  lemma BlocksApart(bs: seq<Block>, low: nat, high: nat, b: Block)
    requires Shape(bs, low, high) && b in bs
    ensures forall c <- bs :: c != b ==> c.End() <= b.at || b.End() <= c.at
  {
    var j :| 0 <= j < |bs| && bs[j] == b;
    forall c <- bs | c != b
      ensures c.End() <= b.at || b.End() <= c.at
    {
      var k :| 0 <= k < |bs| && bs[k] == c;
    }
  }

  lemma GrownBlock(bs: seq<Block>, low: nat, limit: nat, n: Word)
    requires Shape(bs, low, limit) && limit % 4 == 0 && Expandable(n) && n % 4 == 0
    ensures var b := Block(limit, n, false);
            && b in Grow(bs, limit, n) && Aligned(b)
            && multiset(InUse(Grow(bs, limit, n))) == multiset(InUse(bs)) + multiset{b}
  {
    GrowCounts(bs, limit, n);
    assert Fresh(limit, n)[0] == Block(limit, n, false);
  }

  lemma TakenBlock(bs: seq<Block>, low: nat, high: nat, i: nat, n: nat)
    requires Shape(bs, low, high) && i < |bs| && Fits(bs[i], n) && n % 4 == 0
    ensures var b := Taken(bs[i], n);
            && b in Take(bs, i, n)
            && b.at == bs[i].at && Aligned(b) && b.size >= n && !b.free
            && multiset(InUse(Take(bs, i, n))) == multiset(InUse(bs)) + multiset{b}
  {
    TakeCounts(bs, i, n);
    assert bs[i] in bs && Take(bs, i, n)[i] == Taken(bs[i], n);
  }

  predicate Callable(cs: seq<Call>) {
    forall c <- cs :: c.Malloc? ==> Expandable(Round4(c.n))
  }

  function Run(s: List, cs: seq<Call>): List
    requires Callable(cs)
    decreases |cs|
  {
    if cs == [] then
      s
    else
      assert cs[0] in cs;
      Run(Step(s, cs[0]), cs[1..])
  }

  /** The bytes between `low` and the limit that no block accounts for. */
  function Slack(s: List, low: nat): int {
    s.limit - low - Bytes(s.blocks)
  }

  ghost predicate Sound(s: List, low: nat) {
    Shape(s.blocks, low, s.limit) && Coalesced(s.blocks) && s.limit % PAGE_SIZE == 0
  }

  /** The list that init_heap makes */
  lemma OneFreePage(at: nat)
    requires at % PAGE_SIZE == 0
    ensures Sound(List([Block(at, PAGE_SIZE - HEADER, true)], at + PAGE_SIZE), at)
  {
    hide Aligned;
    assert Aligned(Block(at, PAGE_SIZE - HEADER, true)) by { PageIsAligned(at); }
    LimitStaysAligned(at, 1);
  }

  lemma PageIsAligned(at: nat)
    requires at % PAGE_SIZE == 0
    ensures Aligned(Block(at, PAGE_SIZE - HEADER, true))
  {
  }

  lemma SoundParts(s: List, low: nat)
    requires Sound(s, low)
    ensures Shape(s.blocks, low, s.limit) && Coalesced(s.blocks) && s.limit % 4 == 0
  {
  }

  /**
   * What one call may add to the slack: 20 bytes for a successful expansion, the pages of a failed one,
   * and nothing for any other call.
   */
  function SlackOf(s: List, c: Call): nat
    requires c.Malloc? ==> Expandable(Round4(c.n))
  {
    if c.Free? || Round4(c.n) == 0 || FirstFit(s.blocks, Round4(c.n)) < |s.blocks| then 0
    else if NeededPages(Round4(c.n)) <= c.frames then 20
    else c.frames * PAGE_SIZE
  }

  lemma StepSound(s: List, low: nat, c: Call)
    requires Sound(s, low) && Callable([c])
    ensures Sound(Step(s, c), low)
  {
    hide Sound, Shape, Coalesced, Round4, Take, Grow, Release, NeededPages, FirstFit, Expandable;
    SoundParts(s, low);
    assert c in [c];
    var after := Step(s, c);
    var pages := 0;
    match c {
      case Malloc(n, frames) =>
        var m := Round4(n);
        var i := FirstFit(s.blocks, m);
        if m != 0 && i < |s.blocks| {
          TakeShape(s.blocks, low, s.limit, i, m);
          TakeCoalesced(s.blocks, i, m);
        } else if m != 0 && NeededPages(m) <= frames {
          pages := NeededPages(m);
          GrowShape(s.blocks, low, s.limit, m);
          GrowCoalesced(s.blocks, s.limit, m);
        } else if m != 0 {
          pages := frames;
          ShapeWidens(s.blocks, low, s.limit, s.limit + frames * PAGE_SIZE);
        }
      case Free(at) =>
        ReleaseLaws(s.blocks, low, s.limit, at);
    }
    StaysSound(s, after, low, pages);
  }

  lemma StaysSound(s: List, after: List, low: nat, pages: nat)
    requires Sound(s, low) && after.limit == s.limit + pages * PAGE_SIZE
    requires Shape(after.blocks, low, after.limit) && Coalesced(after.blocks)
    ensures Sound(after, low)
  {
    LimitStaysAligned(s.limit, pages);
  }

  lemma LimitStaysAligned(limit: nat, pages: nat)
    requires limit % PAGE_SIZE == 0
    ensures (limit + pages * PAGE_SIZE) % PAGE_SIZE == 0
  {
  }

  /** A call that does not fail to expand loses at most 20 bytes; a failed expansion exactly its pages. */
  lemma StepSlack(s: List, low: nat, c: Call)
    requires Sound(s, low) && Callable([c])
    ensures c in [c]
    ensures Slack(s, low) <= Slack(Step(s, c), low) <= Slack(s, low) + SlackOf(s, c)
    ensures c.Malloc? && Granted(s, c.n, c.frames) == [] ==> Slack(Step(s, c), low) == Slack(s, low) + SlackOf(s, c)
  {
    hide Sound, Shape, Coalesced, Round4, Take, Grow, Release, NeededPages, FirstFit, Expandable, Bytes, InUse;
    SoundParts(s, low);
    assert c in [c];
    match c
    case Malloc(n, frames) =>
      var m := Round4(n);
      var i := FirstFit(s.blocks, m);
      if m != 0 && i < |s.blocks| {
        TakeCounts(s.blocks, i, m);
      } else if m != 0 && NeededPages(m) <= frames {
        GrowCounts(s.blocks, s.limit, m);
      }
    case Free(at) =>
      ReleaseLaws(s.blocks, low, s.limit, at);
  }

  lemma StepKeepsUsed(s: List, low: nat, c: Call, b: Block)
    requires Sound(s, low) && Callable([c])
    requires b in InUse(s.blocks) && c != Free(b.at)
    ensures b in InUse(Step(s, c).blocks)
  {
    assert c in [c];
    match c
    case Malloc(n, frames) =>
      var m := Round4(n);
      var i := FirstFit(s.blocks, m);
      if m != 0 && i < |s.blocks| {
        TakeCounts(s.blocks, i, m);
      } else if m != 0 && NeededPages(m) <= frames {
        GrowCounts(s.blocks, s.limit, m);
      }
    case Free(at) =>
      ReleaseLaws(s.blocks, low, s.limit, at);
      WithoutMembers(InUse(s.blocks), at);
  }

  lemma ShapeWidens(bs: seq<Block>, low: nat, high: nat, higher: nat)
    requires Shape(bs, low, high) && high <= higher
    ensures Shape(bs, low, higher)
  {
  }

  /** What the calls of a run may add to the slack, each in the state in which it is made. */
  function TotalSlack(s: List, cs: seq<Call>): nat
    requires Callable(cs)
    decreases |cs|
  {
    if cs == [] then
      0
    else
      assert cs[0] in cs;
      SlackOf(s, cs[0]) + TotalSlack(Step(s, cs[0]), cs[1..])
  }

  /**
   * In every reachable state the list is in shape and in normal form, and the bytes that no block accounts
   * for are bounded by the expansions made.
   */
  lemma {:induction false} RunLaws(s: List, low: nat, cs: seq<Call>)
    requires Sound(s, low) && Callable(cs)
    ensures Sound(Run(s, cs), low)
    ensures Slack(s, low) <= Slack(Run(s, cs), low) <= Slack(s, low) + TotalSlack(s, cs)
    decreases |cs|
  {
    hide Sound, Step, SlackOf, Slack;
    if cs != [] {
      assert cs[0] in cs && Callable([cs[0]]);
      StepSound(s, low, cs[0]);
      StepSlack(s, low, cs[0]);
      RunLaws(Step(s, cs[0]), low, cs[1..]);
    }
  }

  /** Until it is freed, a used block keeps its place and its size through every run. */
  lemma {:induction false} UsedBlockSurvives(s: List, low: nat, cs: seq<Call>, b: Block)
    requires Sound(s, low) && Callable(cs)
    requires b in InUse(s.blocks) && Free(b.at) !in cs
    ensures b in InUse(Run(s, cs).blocks)
    decreases |cs|
  {
    if cs != [] {
      assert cs[0] in cs && Callable([cs[0]]);
      StepSound(s, low, cs[0]);
      StepKeepsUsed(s, low, cs[0], b);
      UsedBlockSurvives(Step(s, cs[0]), low, cs[1..], b);
    }
  }
}
