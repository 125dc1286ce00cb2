/**
 * What kmalloc and kfree do to the block list, in the numbers of the code: a header of 16 bytes, pages of
 * 4096, and 20 bytes as the least that is worth a block of its own.
 */
module BlockLaws {
  import opened Words
  import opened Blocks

  /** Block i is the first free one of at least m bytes. */
  predicate IsFirstFit(bs: seq<Block>, i: nat, m: nat) {
    && i < |bs| && bs[i].free && bs[i].size >= m
    && forall j :: 0 <= j < i ==> !(bs[j].free && bs[j].size >= m)
  }

  lemma FirstFitIsIt(bs: seq<Block>, i: nat, m: nat)
    requires IsFirstFit(bs, i, m)
    ensures FirstFit(bs, m) == i
  {
    assert FirstFit(bs, m) <= |bs|;
  }

  /**
   * The first free block that is large enough is cut at the rounded size if 20 bytes or more are left over,
   * and used whole otherwise; what is left becomes a free block behind it, and nothing else changes.
   */
  lemma GrantFromList(s: List, n: Word, frames: nat, i: nat)
    requires Round4(n) > 0 && Expandable(Round4(n)) && IsFirstFit(s.blocks, i, Round4(n))
    ensures var m, found, after := Round4(n), s.blocks[i], Step(s, Malloc(n, frames));
            && after.limit == s.limit
            && if found.size < m + 20 then
                 && Granted(s, n, frames) == [Block(found.at, found.size, false)]
                 && after.blocks == s.blocks[i := Block(found.at, found.size, false)]
               else
                 && Granted(s, n, frames) == [Block(found.at, m, false)]
                 && after.blocks == s.blocks[..i]
                                    + [Block(found.at, m, false), Block(found.at + 16 + m, found.size - m - 16, true)]
                                    + s.blocks[i + 1..]
  {
    FirstFitIsIt(s.blocks, i, Round4(n));
    assert s.blocks[i := s.blocks[i].(free := false)] == s.blocks[..i] + [s.blocks[i].(free := false)] + s.blocks[i + 1..];
  }

  /**
   * If no free block is large enough, as few pages as hold the block are added at the limit, with the block
   * first; more than 20 bytes left over become a free block, fewer are lost.
   */
  lemma GrantFromPages(s: List, n: Word, frames: nat)
    requires Round4(n) > 0 && Expandable(Round4(n))
    requires forall b <- s.blocks :: !(b.free && b.size >= Round4(n))
    requires 4096 * frames >= Round4(n) + 16
    ensures Granted(s, n, frames) == [Block(s.limit, Round4(n), false)]
    ensures var m, after := Round4(n), Step(s, Malloc(n, frames));
            var pages := (m + 16 + 4095) / 4096;
            var left := 4096 * pages - (m + 16);
            && after.limit == s.limit + 4096 * pages
            && after.blocks == s.blocks + [Block(s.limit, m, false)]
                               + if left > 20 then [Block(s.limit + 16 + m, left - 16, true)] else []
  {
    NoneFits(s.blocks, Round4(n));
    PagesHoldBlockIff(Round4(n));
  }

  lemma NoneFits(bs: seq<Block>, m: nat)
    requires forall b <- bs :: !(b.free && b.size >= m)
    ensures FirstFit(bs, m) == |bs|
  {
    assert FirstFit(bs, m) <= |bs|;
  }

  /**
   * kmalloc hands out nothing exactly when the request is empty (or wraps to nothing), or when no free
   * block is large enough and the frames do not hold the block; the blocks then stay as they were, and the
   * limit advances by the frames that could be had.
   */
  lemma MallocFailsIff(s: List, n: Word, frames: nat)
    requires Expandable(Round4(n))
    ensures Granted(s, n, frames) == []
            <==> Round4(n) == 0
                 || ((forall b <- s.blocks :: !(b.free && b.size >= Round4(n))) && 4096 * frames < Round4(n) + 16)
    ensures Granted(s, n, frames) == [] ==>
              Step(s, Malloc(n, frames)) == List(s.blocks, s.limit + if Round4(n) == 0 then 0 else 4096 * frames)
  {
    var i := FirstFit(s.blocks, Round4(n));
    assert i < |s.blocks| ==> s.blocks[i] in s.blocks;
    if exists b <- s.blocks :: b.free && b.size >= Round4(n) {
      var b :| b in s.blocks && b.free && b.size >= Round4(n);
      var j :| 0 <= j < |s.blocks| && s.blocks[j] == b;
      assert i <= j;
    }
    PagesHoldBlockIff(Round4(n));
  }

  /** However a block is found, fewer than 20 bytes of it are more than was asked for. */
  lemma GrantIsTight(s: List, n: Word, frames: nat, b: Block)
    requires Expandable(Round4(n)) && Granted(s, n, frames) == [b]
    ensures Round4(n) <= b.size < Round4(n) + 20
  {
    MallocFailsIff(s, n, frames);
    if exists c <- s.blocks :: c.free && c.size >= Round4(n) {
      var i := FirstFit(s.blocks, Round4(n));
      var c :| c in s.blocks && c.free && c.size >= Round4(n);
      var j :| 0 <= j < |s.blocks| && s.blocks[j] == c;
      assert i <= j;
      GrantFromList(s, n, frames, i);
    } else {
      GrantFromPages(s, n, frames);
    }
  }

  /** On a heap of one fresh page at `at`, two requests for 8 bytes give at + 16 and at + 40. */
  lemma TwoSmallBlocks(at: nat)
    ensures var s := List([Block(at, 4080, true)], at + 4096);
            && Expandable(Round4(8))
            && Granted(s, 8, 0) == [Block(at, 8, false)] && Block(at, 8, false).Payload() == at + 16
            && Granted(Step(s, Malloc(8, 0)), 8, 0) == [Block(at + 24, 8, false)]
            && Block(at + 24, 8, false).Payload() == at + 40
  {
    var s := List([Block(at, 4080, true)], at + 4096);
    assert Round4(8) == 8;
    GrantFromList(s, 8, 0, 0);
    var t := Step(s, Malloc(8, 0));
    assert t.blocks == [Block(at, 8, false), Block(at + 24, 4056, true)];
    GrantFromList(t, 8, 0, 1);
  }

  // ---------------------------------------------------------------- kfree

  /** kfree marks the block at its address, and no other. */
  lemma {:induction false} MarkAt(bs: seq<Block>, at: nat, i: nat)
    requires i < |bs|
    ensures |Mark(bs, at)| == |bs|
    ensures Mark(bs, at)[i] == if bs[i].at == at then Block(at, bs[i].size, true) else bs[i]
  {
    if i > 0 {
      MarkAt(bs[1..], at, i - 1);
    } else if |bs| > 1 {
      MarkAt(bs[1..], at, 0);
    }
  }

  /** c stands for the blocks g: for one block as it is, or for free neighbours with the headers between them. */
  predicate Group(g: seq<Block>, c: Block)
    requires |g| > 0
  {
    c.at == g[0].at && c.free == g[0].free && 16 + c.size == Bytes(g) && (|g| > 1 ==> forall b <- g :: b.free)
  }

  /** cs is bs with neighbouring blocks grouped, in order. */
  ghost predicate Grouped(bs: seq<Block>, cs: seq<Block>)
    decreases |cs|
  {
    if cs == [] then bs == [] else exists n :: 1 <= n <= |bs| && Group(bs[..n], cs[0]) && Grouped(bs[n..], cs[1..])
  }

  lemma GroupMore(a: Block, b: Block, g: seq<Block>, c: Block)
    requires a.free && b.free && Group([Merge(a, b)] + g, c)
    ensures Group([a, b] + g, c)
  {
    BytesAppend([Merge(a, b)], g);
    BytesAppend([a], [b] + g);
    BytesAppend([b], g);
    One(a);
    One(b);
    One(Merge(a, b));
    assert [a, b] + g == [a] + ([b] + g);
    forall x <- [a, b] + g
      ensures x.free
    {
      if x != a && x != b {
        assert x in g && x in [Merge(a, b)] + g && |g| > 0;
      }
    }
  }

  lemma GroupedMore(a: Block, b: Block, rest: seq<Block>, cs: seq<Block>)
    requires a.free && b.free && Grouped([Merge(a, b)] + rest, cs)
    ensures Grouped([a, b] + rest, cs)
  {
    hide Group, Merge;
    var bs, merged := [a, b] + rest, [Merge(a, b)] + rest;
    var n :| 1 <= n <= |merged| && Group(merged[..n], cs[0]) && Grouped(merged[n..], cs[1..]);
    assert merged[..n] == [Merge(a, b)] + rest[..n - 1] && bs[..n + 1] == [a, b] + rest[..n - 1];
    assert merged[n..] == bs[n + 1..];
    GroupMore(a, b, rest[..n - 1], cs[0]);
  }

  /** coalesce_free_blocks only joins free neighbours: each block that is left stands for consecutive old ones. */
  lemma {:induction false} CoalesceGroups(bs: seq<Block>)
    ensures Grouped(bs, Coalesce(bs))
    decreases |bs|
  {
    hide Merge;
    if |bs| >= 2 && bs[0].free && bs[1].free {
      var rest := bs[2..];
      assert bs == [bs[0], bs[1]] + rest;
      CoalesceGroups([Merge(bs[0], bs[1])] + rest);
      GroupedMore(bs[0], bs[1], rest, Coalesce([Merge(bs[0], bs[1])] + rest));
    } else if bs != [] {
      var cs := Coalesce(bs);
      One(bs[0]);
      assert bs[..1] == [bs[0]] && Group(bs[..1], cs[0]);
      if |bs| >= 2 {
        CoalesceGroups(bs[1..]);
        assert cs[1..] == Coalesce(bs[1..]);
      } else {
        assert bs[1..] == [] && cs[1..] == [];
        assert Grouped(bs[1..], cs[1..]);
      }
    }
  }

  lemma SameGroup(bs: seq<Block>, cs: seq<Block>, ds: seq<Block>, n: nat, k: nat)
    requires cs != [] && ds != [] && Coalesced(cs)
    requires 1 <= n <= k <= |bs| && Group(bs[..n], cs[0]) && Grouped(bs[n..], cs[1..]) && Group(bs[..k], ds[0])
    ensures n == k && cs[0] == ds[0]
  {
    if n < k {
      NextIsFree(bs, cs, n, k);
    }
  }

  lemma NextIsFree(bs: seq<Block>, cs: seq<Block>, n: nat, k: nat)
    requires cs != [] && 1 <= n < k <= |bs| && forall b <- bs[..k] :: b.free
    requires Group(bs[..n], cs[0]) && Grouped(bs[n..], cs[1..])
    ensures |cs| > 1 && cs[0].free && cs[1].free
  {
    assert bs[0] in bs[..k] && bs[n] in bs[..k];
    var tail, groups := bs[n..], cs[1..];
    var l :| 1 <= l <= |tail| && Group(tail[..l], groups[0]) && Grouped(tail[l..], groups[1..]);
    assert tail[..l][0] == bs[n];
  }

  /** There is only one way to group the blocks that leaves no two free neighbours: coalescing is that. */
  lemma {:induction false} GroupingIsUnique(bs: seq<Block>, cs: seq<Block>, ds: seq<Block>)
    requires Grouped(bs, cs) && Coalesced(cs) && Grouped(bs, ds) && Coalesced(ds)
    ensures cs == ds
    decreases |cs|
  {
    hide Group;
    if cs != [] && ds != [] {
      var n :| 1 <= n <= |bs| && Group(bs[..n], cs[0]) && Grouped(bs[n..], cs[1..]);
      var k :| 1 <= k <= |bs| && Group(bs[..k], ds[0]) && Grouped(bs[k..], ds[1..]);
      if n <= k {
        SameGroup(bs, cs, ds, n, k);
      } else {
        SameGroup(bs, ds, cs, k, n);
      }
      assert Coalesced(cs[1..]) && Coalesced(ds[1..]) by {
        assert forall i :: 0 <= i < |cs[1..]| ==> cs[1..][i] == cs[i + 1];
        assert forall i :: 0 <= i < |ds[1..]| ==> ds[1..][i] == ds[i + 1];
      }
      GroupingIsUnique(bs[n..], cs[1..], ds[1..]);
      assert cs == [cs[0]] + cs[1..] && ds == [ds[0]] + ds[1..];
    }
  }
}
