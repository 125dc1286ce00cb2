/** libc/mem.cpp and drivers/display/vbe.cpp: the ascending byte copy, and the scroll that relies on it. */
module Vbe {
  import opened Words

  type Byte = x: nat | x < 0x100

  const LINE_HEIGHT := 8

  // ---------------------------------------------------------------- memcpy inside one buffer

  /** The buffer after the first n rounds of memcpy(buffer + dest, buffer + src, ...). */
  function Copied(s: seq<Byte>, dest: nat, src: nat, n: nat): (r: seq<Byte>)
    requires dest + n <= |s| && src + n <= |s|
    ensures |r| == |s|
  {
    if n == 0 then
      s
    else
      var before := Copied(s, dest, src, n - 1);
      before[dest + n - 1 := before[src + n - 1]]
  }

  function MovedByte(s: seq<Byte>, dest: nat, src: nat, n: nat, k: nat): Byte
    requires k < |s| && src + n <= |s|
  {
    if dest <= k < dest + n then s[src + (k - dest)] else s[k]
  }

  /** A copy as if the source were set aside first. */
  predicate IsMove(s: seq<Byte>, r: seq<Byte>, dest: nat, src: nat, n: nat)
    requires dest + n <= |s| && src + n <= |s|
  {
    && |r| == |s|
    && forall k :: 0 <= k < |s| ==> r[k] == MovedByte(s, dest, src, n, k)
  }

  lemma {:induction false} ForwardCopyMoves(s: seq<Byte>, dest: nat, src: nat, n: nat)
    requires dest + n <= |s| && src + n <= |s|
    requires dest <= src || src + n <= dest
    ensures IsMove(s, Copied(s, dest, src, n), dest, src, n)
  {
    if n > 0 {
      ForwardCopyMoves(s, dest, src, n - 1);
      var before, r := Copied(s, dest, src, n - 1), Copied(s, dest, src, n);
      assert before[src + n - 1] == MovedByte(s, dest, src, n - 1, src + n - 1) == s[src + n - 1];
      forall k | 0 <= k < |s|
        ensures r[k] == MovedByte(s, dest, src, n, k)
      {
        if k != dest + n - 1 {
          assert r[k] == before[k] == MovedByte(s, dest, src, n - 1, k);
        }
      }
    }
  }

  /** Behind its source, the copy repeats the first bytes. */
  lemma {:induction false} OverlapRepeats(s: seq<Byte>, dest: nat, src: nat, n: nat)
    requires dest + n <= |s| && src < dest < src + n
    ensures Copied(s, dest, src, n)[dest + (dest - src)] == s[src]
    decreases n
  {
    var d := dest - src;
    if n == d + 1 {
      ForwardCopyMoves(s, dest, src, d);
    } else {
      OverlapRepeats(s, dest, src, n - 1);
    }
  }

  /** The ascending copy is a move on every buffer of a size exactly when it does not run behind its source. */
  lemma CopyMovesIff(size: nat, dest: nat, src: nat, n: nat)
    requires dest + n <= size && src + n <= size
    ensures (forall s: seq<Byte> :: |s| == size ==> IsMove(s, Copied(s, dest, src, n), dest, src, n))
            <==> dest <= src || src + n <= dest
  {
    if dest <= src || src + n <= dest {
      forall s: seq<Byte> | |s| == size
        ensures IsMove(s, Copied(s, dest, src, n), dest, src, n)
      {
        ForwardCopyMoves(s, dest, src, n);
      }
    } else {
      var s := OneAt(size, src);
      OverlapIsNoMove(s, dest, src, n);
    }
  }

  function OneAt(size: nat, at: nat): seq<Byte> {
    seq(size, k => if k == at then 1 else 0)
  }

  lemma OverlapIsNoMove(s: seq<Byte>, dest: nat, src: nat, n: nat)
    requires dest + n <= |s| && src < dest < src + n && s[src] != s[dest]
    ensures !IsMove(s, Copied(s, dest, src, n), dest, src, n)
  {
    OverlapRepeats(s, dest, src, n);
    var k := dest + (dest - src);
    assert MovedByte(s, dest, src, n, k) == s[dest];
  }

  /** memcpy with source and destination in one buffer */
  method Memcpy(buffer: array<Byte>, dest: nat, src: nat, size: nat)
    requires dest + size <= buffer.Length && src + size <= buffer.Length
    modifies buffer
    ensures buffer[..] == Copied(old(buffer[..]), dest, src, size)
  {
    for i := 0 to size
      invariant buffer[..] == Copied(old(buffer[..]), dest, src, i)
    {
      ghost var before := buffer[..];
      buffer[dest + i] := buffer[src + i];
      assert buffer[..] == before[dest + i := before[src + i]];
    }
  }

  // ---------------------------------------------------------------- vbe_scroll_up

  /** Byte i of a little-endian word */
  function ByteOf(w: Word, i: nat): Byte
    requires i < 4
  {
    if i == 0 then w % 0x100
    else if i == 1 then w / 0x100 % 0x100
    else if i == 2 then w / 0x1_0000 % 0x100
    else w / 0x100_0000
  }

  /** The four bytes make up the word. */
  lemma BytesOfWord(w: Word)
    ensures ByteOf(w, 0) + 0x100 * ByteOf(w, 1) + 0x1_0000 * ByteOf(w, 2) + 0x100_0000 * ByteOf(w, 3) == w
  {
    var a, b, c := w / 0x100, w / 0x1_0000, w / 0x100_0000;
    assert a / 0x100 == b && b / 0x100 == c;
  }

  /** The bytes of n pixels of one color. */
  predicate Filled(s: seq<Byte>, color: Word) {
    forall k :: 0 <= k < |s| ==> s[k] == ByteOf(color, k % 4)
  }

  /** `buffer_ptr[i] = bg_color` for all pixels from `at` to `end` */
  method Fill(video: array<Byte>, at: nat, pixels: nat, color: Word)
    requires at + 4 * pixels <= video.Length
    modifies video
    ensures Filled(video[at..at + 4 * pixels], color)
    ensures video[..at] == old(video[..at]) && video[at + 4 * pixels..] == old(video[at + 4 * pixels..])
  {
    for i := 0 to pixels
      invariant Filled(video[at..at + 4 * i], color)
      invariant video[..at] == old(video[..at]) && video[at + 4 * pixels..] == old(video[at + 4 * pixels..])
    {
      ghost var before := video[..];
      StorePixel(video, at + 4 * i, color);
      PixelAppended(before, video[..], at, i, color);
      assert video[..at] == before[..at] && video[at + 4 * pixels..] == before[at + 4 * pixels..];
    }
  }

  /** The four bytes of a color */
  function Pixel(color: Word): seq<Byte> {
    [ByteOf(color, 0), ByteOf(color, 1), ByteOf(color, 2), ByteOf(color, 3)]
  }

  method StorePixel(video: array<Byte>, p: nat, color: Word)
    requires p + 4 <= video.Length
    modifies video
    ensures video[p..p + 4] == Pixel(color)
    ensures forall k :: 0 <= k < video.Length && !(p <= k < p + 4) ==> video[k] == old(video[k])
  {
    hide ByteOf;
    video[p] := ByteOf(color, 0);
    video[p + 1] := ByteOf(color, 1);
    video[p + 2] := ByteOf(color, 2);
    video[p + 3] := ByteOf(color, 3);
  }

  lemma PixelAppended(before: seq<Byte>, after: seq<Byte>, at: nat, i: nat, color: Word)
    requires at + 4 * (i + 1) <= |before| == |after|
    requires Filled(before[at..at + 4 * i], color) && after[at + 4 * i..at + 4 * i + 4] == Pixel(color)
    requires forall k :: 0 <= k < |before| && !(at + 4 * i <= k < at + 4 * i + 4) ==> after[k] == before[k]
    ensures Filled(after[at..at + 4 * (i + 1)], color)
  {
    hide ByteOf;
    var s, p := after[at..at + 4 * (i + 1)], after[at + 4 * i..at + 4 * i + 4];
    forall k | 0 <= k < |s|
      ensures s[k] == ByteOf(color, k % 4)
    {
      if k < 4 * i {
        assert s[k] == before[at..at + 4 * i][k];
      } else {
        assert s[k] == p[k - 4 * i] && k % 4 == k - 4 * i;
      }
    }
  }

  lemma MoveSlices(before: seq<Byte>, after: seq<Byte>, block: nat, screen: nat)
    requires block <= screen <= |before| && after == Copied(before, 0, block, screen - block)
    ensures after[..screen - block] == before[block..screen] && after[screen..] == before[screen..]
  {
    hide Copied;
    ForwardCopyMoves(before, 0, block, screen - block);
    forall k | 0 <= k < |before|
      ensures after[k] == MovedByte(before, 0, block, screen - block, k)
    {
    }
  }

  /** Row r of a picture with `stride` bytes a row */
  function Row(s: seq<Byte>, stride: nat, r: nat): seq<Byte>
    requires (r + 1) * stride <= |s|
  {
    assert (r + 1) * stride == r * stride + stride;
    s[r * stride..(r + 1) * stride]
  }

  /** vbe_scroll_up, for a screen whose size is a 32-bit word */
  method ScrollUp(video: array<Byte>, stride: Word, height: Word, lines: Word, color: Word)
    requires LINE_HEIGHT * lines <= height && height * stride <= video.Length && height * stride < WORD_LIMIT
    modifies video
    ensures BlockSize(stride, lines) <= height * stride
    ensures video[..height * stride - BlockSize(stride, lines)] == old(video[BlockSize(stride, lines)..height * stride])
    ensures Filled(video[height * stride - BlockSize(stride, lines)..height * stride], color)
    ensures video[height * stride..] == old(video[height * stride..])
  {
    hide BlockSize;
    BlockFits(stride, height, lines);
    ScrollBytes(video, BlockSize(stride, lines), height * stride, color);
  }

  /** `lines * line_height * stride` */
  function BlockSize(stride: nat, lines: nat): nat {
    LINE_HEIGHT * lines * stride
  }

  /** The copy and the fill of vbe_scroll_up, in bytes. */
  method ScrollBytes(video: array<Byte>, block: nat, screen: nat, color: Word)
    requires block <= screen <= video.Length && block % 4 == 0
    modifies video
    ensures video[..screen - block] == old(video[block..screen])
    ensures Filled(video[screen - block..screen], color)
    ensures video[screen..] == old(video[screen..])
  {
    ghost var before := video[..];
    Memcpy(video, 0, block, screen - block);
    MoveSlices(before, video[..], block, screen);
    Fill(video, screen - block, block / 4, color);
  }

  lemma BlockFits(stride: nat, height: nat, lines: nat)
    requires LINE_HEIGHT * lines <= height
    ensures BlockSize(stride, lines) <= height * stride && BlockSize(stride, lines) % 4 == 0
  {
    assert LINE_HEIGHT * lines * stride == 4 * (2 * lines * stride);
  }

  /** Row r ends within a picture of more than r rows. */
  lemma RowBounds(stride: nat, height: nat, r: nat)
    requires r < height
    ensures 0 <= r * stride <= r * stride + stride == (r + 1) * stride <= height * stride
  {
    assert (r + 1) * stride <= height * stride;
  }

  lemma RowsBelow(stride: nat, r: nat, n: nat)
    ensures (r + n) * stride == r * stride + n * stride
  {
  }

  /** Row by row: what was 8 * lines rows lower is now here, and the rows below are the background. */
  lemma ScrolledRows(before: seq<Byte>, after: seq<Byte>, stride: nat, height: nat, lines: nat, color: Word, r: nat)
    requires LINE_HEIGHT * lines <= height && height * stride <= |before| == |after| && stride % 4 == 0
    requires var block := BlockSize(stride, lines);
             && block <= height * stride
             && after[..height * stride - block] == before[block..height * stride]
             && Filled(after[height * stride - block..height * stride], color)
    requires r < height
    ensures (r + 1) * stride <= height * stride
    ensures r + 8 * lines < height ==>
              && (r + 8 * lines + 1) * stride <= height * stride
              && Row(after, stride, r) == Row(before, stride, r + 8 * lines)
    ensures r + 8 * lines >= height ==> Filled(Row(after, stride, r), color)
  {
    hide Filled;
    var n := LINE_HEIGHT * lines;
    RowBounds(stride, height, r);
    if r + n < height {
      RowBounds(stride, height, r + n);
      RowsBelow(stride, r, n);
      MovedSlice(before, after, n * stride, height * stride, r * stride, stride);
    } else {
      FilledRow(stride, height, n, r);
      FilledSlice(after, height * stride - n * stride, height * stride, r * stride, stride, color);
    }
  }

  /** The rows from height - n on start in the filled part, at a pixel. */
  lemma FilledRow(stride: nat, height: nat, n: nat, r: nat)
    requires n <= height && height - n <= r < height && stride % 4 == 0
    ensures 0 <= height * stride - n * stride <= r * stride
    ensures (r * stride - (height * stride - n * stride)) % 4 == 0
  {
    RowsBelow(stride, height - n, n);
    RowsBelow(stride, height - n, r - (height - n));
    WholePixels(stride, r - (height - n));
  }

  lemma WholePixels(stride: nat, rows: nat)
    requires stride % 4 == 0
    ensures rows * stride >= 0 && rows * stride % 4 == 0
  {
    assert rows * stride == 4 * (rows * (stride / 4));
  }

  lemma MovedSlice(before: seq<Byte>, after: seq<Byte>, block: nat, screen: nat, at: nat, n: nat)
    requires block <= screen <= |before| == |after| && after[..screen - block] == before[block..screen]
    requires at + block + n <= screen
    ensures after[at..at + n] == before[at + block..at + block + n]
  {
    var x, y := after[at..at + n], before[at + block..at + block + n];
    forall k | 0 <= k < n
      ensures x[k] == y[k]
    {
      assert x[k] == after[..screen - block][at + k];
      assert y[k] == before[block..screen][at + k];
    }
  }

  lemma FilledSlice(s: seq<Byte>, from: nat, to: nat, at: nat, n: nat, color: Word)
    requires from <= at && at + n <= to <= |s| && (at - from) % 4 == 0 && Filled(s[from..to], color)
    ensures Filled(s[at..at + n], color)
  {
    hide ByteOf;
    forall k | 0 <= k < n
      ensures s[at..at + n][k] == ByteOf(color, k % 4)
    {
      assert s[at + k] == s[from..to][at + k - from];
      SameColumn(at - from, k);
    }
  }

  lemma SameColumn(offset: nat, k: nat)
    requires offset % 4 == 0
    ensures (offset + k) % 4 == k % 4
  {
    var n := offset / 4;
    assert offset + k == 4 * (n + k / 4) + k % 4;
  }
}
