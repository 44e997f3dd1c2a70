/** The integer box filter that shrinks frames before they are sent. */
module BoxFilter {
  import opened Arith
  import opened Bytes

  // ----- One dimension: which source cells a destination cell averages -----

  function Lo(d: nat, src: nat, dst: pos): nat {
    d * src / dst
  }

  function Hi(d: nat, src: nat, dst: pos): nat {
    var raw := Lo(d + 1, src, dst);
    var clamped := if raw < Lo(d, src, dst) + 1 then Lo(d, src, dst) + 1 else raw;
    if clamped < src then clamped else src
  }

  lemma DivMono(a: nat, b: nat, d: pos)
    requires a <= b
    ensures a / d <= b / d
  {
    DivModParts(a, d);
    DivModParts(b, d);
    if b / d < a / d {
      MulStrict(b / d, a / d, d);
    }
  }

  lemma MulDiv(a: nat, d: pos)
    ensures a * d / d == a
  {
    DivModUnique(a * d, d, a, 0);
  }

  /** Every block is non-empty and inside the source. */
  lemma BlockInside(d: nat, src: nat, dst: pos)
    requires d < dst && src > 0
    ensures Lo(d, src, dst) < Hi(d, src, dst) <= src
  {
    MulStrict(d, dst, src);
    DivModParts(d * src, dst);
    if Lo(d, src, dst) >= src {
      MulMono(src, Lo(d, src, dst), dst);
    }
  }

  lemma LoEnds(src: nat, dst: pos)
    ensures Lo(0, src, dst) == 0 && Lo(dst, src, dst) == src
  {
    MulDiv(src, dst);
    DivModUnique(0, dst, 0, 0);
    assert dst * src == src * dst;
  }

  /** When shrinking, consecutive blocks are adjacent: no clamp is ever active. */
  lemma BlocksAdjacent(d: nat, src: nat, dst: pos)
    requires d < dst <= src
    ensures Lo(d, src, dst) + 1 <= Lo(d + 1, src, dst) == Hi(d, src, dst) <= src
  {
    assert (d + 1) * src == d * src + src;
    DivAddOne(d * src, dst);
    DivMono(d * src + dst, d * src + src, dst);
    LoEnds(src, dst);
    MulMono(d + 1, dst, src);
    DivMono((d + 1) * src, dst * src, dst);
  }

  predicate InBlock(s: nat, d: nat, src: nat, dst: pos) {
    Lo(d, src, dst) <= s < Hi(d, src, dst)
  }

  lemma LoMono(c: nat, d: nat, src: nat, dst: pos)
    requires c <= d
    ensures Lo(c, src, dst) <= Lo(d, src, dst)
  {
    MulMono(c, d, src);
    DivMono(c * src, d * src, dst);
  }

  lemma {:induction false} FindBlock(s: nat, d: nat, src: nat, dst: pos) returns (b: nat)
    requires s < Lo(d, src, dst)
    ensures b < d && Lo(b, src, dst) <= s < Lo(b + 1, src, dst)
  {
    LoEnds(src, dst);
    if s >= Lo(d - 1, src, dst) {
      b := d - 1;
    } else {
      b := FindBlock(s, d - 1, src, dst);
    }
  }

  /** Cell `d` of the destination, and no other, averages source cell `s`. */
  ghost predicate Owner(s: nat, d: nat, src: nat, dst: pos) {
    d < dst && InBlock(s, d, src, dst) && forall e :: 0 <= e < dst && InBlock(s, e, src, dst) ==> e == d
  }

  ghost predicate HasOwner(s: nat, src: nat, dst: pos) {
    exists d :: Owner(s, d, src, dst)
  }

  /** Each source cell is averaged into exactly one destination cell. */
  ghost predicate Tiling(src: nat, dst: pos) {
    forall s :: 0 <= s < src ==> HasOwner(s, src, dst)
  }

  lemma ShrinkingOwner(s: nat, src: nat, dst: pos) returns (d: nat)
    requires s < src && dst <= src
    ensures Owner(s, d, src, dst)
  {
    LoEnds(src, dst);
    d := FindBlock(s, dst, src, dst);
    BlocksAdjacent(d, src, dst);
    forall e | 0 <= e < dst && InBlock(s, e, src, dst) ensures e == d {
      BlocksAdjacent(e, src, dst);
      if e < d {
        LoMono(e + 1, d, src, dst);
      } else if d < e {
        LoMono(d + 1, e, src, dst);
      }
    }
  }

  lemma ShrinkingTiles(src: nat, dst: pos)
    requires dst <= src
    ensures Tiling(src, dst)
  {
    forall s | 0 <= s < src ensures HasOwner(s, src, dst) {
      var d := ShrinkingOwner(s, src, dst);
      assert Owner(s, d, src, dst);
    }
  }

  /** If every block starts strictly after the one before, the starts outgrow their indices. */
  lemma {:induction false} StartsGrow(d: nat, src: nat, dst: pos)
    requires forall c :: 0 <= c < d ==> Lo(c, src, dst) < Lo(c + 1, src, dst)
    ensures d <= Lo(d, src, dst)
  {
    if d > 0 {
      StartsGrow(d - 1, src, dst);
      assert Lo(d - 1, src, dst) < Lo(d - 1 + 1, src, dst);
    }
  }

  /** Stretching one dimension makes two destination cells share a source cell. */
  lemma StretchingOverlaps(src: nat, dst: pos)
    requires 0 < src < dst
    ensures !Tiling(src, dst)
  {
    BlockInside(dst - 1, src, dst);
    if forall c :: 0 <= c < dst - 1 ==> Lo(c, src, dst) < Lo(c + 1, src, dst) {
      StartsGrow(dst - 1, src, dst);
    } else {
      var c :| 0 <= c < dst - 1 && Lo(c, src, dst) >= Lo(c + 1, src, dst);
      LoMono(c, c + 1, src, dst);
      BlockInside(c, src, dst);
      BlockInside(c + 1, src, dst);
      var s := Lo(c, src, dst);
      assert InBlock(s, c, src, dst) && InBlock(s, c + 1, src, dst);
      assert !HasOwner(s, src, dst);
    }
  }

  /** The blocks of a non-empty dimension tile it exactly when it is not stretched. */
  lemma TilesExactly(src: pos, dst: pos)
    ensures Tiling(src, dst) <==> dst <= src
  {
    if dst <= src {
      ShrinkingTiles(src, dst);
    } else {
      StretchingOverlaps(src, dst);
    }
  }

  lemma QuotientAtMost(a: nat, d: pos, q: nat)
    ensures a / d <= q <==> a < (q + 1) * d
    ensures q <= a / d <==> q * d <= a
  {
    DivModParts(a, d);
    if a / d <= q {
      MulMono(a / d + 1, q + 1, d);
    } else {
      MulMono(q + 1, a / d, d);
    }
    if q <= a / d {
      MulMono(q, a / d, d);
    } else {
      MulMono(a / d + 1, q, d);
    }
  }

  /** Which source cells a destination cell averages, by the ratio of the sizes alone: shrinking, those
      whose end, scaled, lies in the destination cell; stretching, the one that its start lies in. */
  lemma BlockByRatio(s: nat, d: nat, src: pos, dst: pos)
    requires s < src && d < dst
    ensures dst <= src ==> (InBlock(s, d, src, dst) <==> d * src < (s + 1) * dst <= (d + 1) * src)
    ensures src < dst ==> (InBlock(s, d, src, dst) <==> s * dst <= d * src < (s + 1) * dst)
  {
    QuotientAtMost(d * src, dst, s);
    QuotientAtMost((d + 1) * src, dst, s + 1);
    if dst <= src {
      BlocksAdjacent(d, src, dst);
    } else {
      BlockInside(d, src, dst);
      OneCell(d, src, dst);
    }
  }

  lemma OneCell(d: nat, src: pos, dst: pos)
    requires src < dst && Lo(d, src, dst) < src
    ensures Hi(d, src, dst) == Lo(d, src, dst) + 1
  {
    DivAddOne(d * src, dst);
    assert (d + 1) * src == d * src + src;
    DivMono((d + 1) * src, d * src + dst, dst);
  }

  // ----- Sums over a block -----

  /** Sum of channel bytes at `off`, `off + 4`, ..., `n` of them. */
  function RowSum(src: seq<byte>, off: nat, n: nat): nat
    requires n > 0 ==> off + 4 * (n - 1) < |src|
  {
    if n == 0 then 0 else RowSum(src, off, n - 1) + src[off + 4 * (n - 1)] as nat
  }

  /** A block of pixels: `rows` rows of `cols` pixels from byte `off`, one channel. */
  function BlockSum(src: seq<byte>, stride: nat, off: nat, rows: nat, cols: nat): nat
    requires rows > 0 && cols > 0 ==> off + (rows - 1) * stride + 4 * (cols - 1) < |src|
  {
    if rows == 0 then 0
    else
      assert cols > 0 && rows > 1 ==> (rows - 2) * stride <= (rows - 1) * stride by {
        if rows > 1 { MulMono(rows - 2, rows - 1, stride); }
      }
      BlockSum(src, stride, off, rows - 1, cols) + RowSum(src, off + (rows - 1) * stride, cols)
  }

  /** All bytes of the block lie between `lo` and `hi`. */
  ghost predicate BlockWithin(src: seq<byte>, stride: nat, off: nat, rows: nat, cols: nat, lo: nat, hi: nat) {
    forall r, c :: 0 <= r < rows && 0 <= c < cols && off + r * stride + 4 * c < |src| ==>
      lo <= src[off + r * stride + 4 * c] as nat <= hi
  }

  lemma {:induction false} RowSumBounds(src: seq<byte>, off: nat, n: nat, lo: nat, hi: nat)
    requires n > 0 ==> off + 4 * (n - 1) < |src|
    requires forall c :: 0 <= c < n ==> lo <= src[off + 4 * c] as nat <= hi
    ensures lo * n <= RowSum(src, off, n) <= hi * n
  {
    if n > 0 {
      RowSumBounds(src, off, n - 1, lo, hi);
      Distribute(lo, n - 1, 1);
      Distribute(hi, n - 1, 1);
    }
  }

  lemma {:induction false} BlockSumBounds(src: seq<byte>, stride: nat, off: nat, rows: nat, cols: nat, lo: nat, hi: nat)
    requires rows > 0 && cols > 0 ==> off + (rows - 1) * stride + 4 * (cols - 1) < |src|
    requires BlockWithin(src, stride, off, rows, cols, lo, hi)
    ensures lo * (rows * cols) <= BlockSum(src, stride, off, rows, cols) <= hi * (rows * cols)
  {
    if rows > 0 {
      if rows > 1 {
        MulMono(rows - 2, rows - 1, stride);
      }
      BlockSumBounds(src, stride, off, rows - 1, cols, lo, hi);
      RowSumBounds(src, off + (rows - 1) * stride, cols, lo, hi);
      Distribute(lo, rows - 1, cols);
      Distribute(hi, rows - 1, cols);
    }
  }

  lemma Distribute(v: nat, r: nat, c: nat)
    ensures v * ((r + 1) * c) == v * (r * c) + v * c
  {
    assert (r + 1) * c == r * c + c;
  }

  /** Byte `i` is one of the `n` summed from `off`. */
  predicate InRow(off: nat, n: nat, i: nat) {
    off <= i < off + 4 * n && (i - off) % 4 == 0
  }

  predicate InRowOf(stride: nat, off: nat, cols: nat, r: nat, i: nat) {
    InRow(off + r * stride, cols, i)
  }

  /** Byte `i` is the channel of a pixel of the block. */
  predicate InPixels(stride: nat, off: nat, rows: nat, cols: nat, i: nat) {
    exists r: nat :: r < rows && InRowOf(stride, off, cols, r, i)
  }

  lemma {:induction false} RowCountsOnce(src: seq<byte>, off: nat, n: nat, i: nat, v: byte)
    requires (n > 0 ==> off + 4 * (n - 1) < |src|) && i < |src|
    ensures RowSum(src[i := v], off, n) == RowSum(src, off, n) + if InRow(off, n, i) then v as int - src[i] as int else 0
  {
    if n > 0 {
      RowCountsOnce(src, off, n - 1, i, v);
    }
  }

  lemma RowsApart(stride: nat, off: nat, cols: nat, r: nat, q: nat, i: nat)
    requires 4 * cols <= stride && InRowOf(stride, off, cols, r, i) && InRowOf(stride, off, cols, q, i)
    ensures r == q
  {
    if r < q {
      MulStrict(r, q, stride);
    } else if q < r {
      MulStrict(q, r, stride);
    }
  }

  lemma InPixelsNext(stride: nat, off: nat, rows: nat, cols: nat, i: nat)
    requires rows > 0 && 4 * cols <= stride
    ensures InPixels(stride, off, rows, cols, i)
       <==> InPixels(stride, off, rows - 1, cols, i) || InRowOf(stride, off, cols, rows - 1, i)
    ensures !(InPixels(stride, off, rows - 1, cols, i) && InRowOf(stride, off, cols, rows - 1, i))
  {
    hide InRowOf;
    if InPixels(stride, off, rows - 1, cols, i) && InRowOf(stride, off, cols, rows - 1, i) {
      var r: nat :| r < rows - 1 && InRowOf(stride, off, cols, r, i);
      RowsApart(stride, off, cols, r, rows - 1, i);
      assert false;
    }
  }

  /** A block sum counts every byte of the block once and no other byte. */
  lemma {:induction false} BlockCountsOnce(src: seq<byte>, stride: nat, off: nat, rows: nat, cols: nat, i: nat, v: byte)
    requires (rows > 0 && cols > 0 ==> off + (rows - 1) * stride + 4 * (cols - 1) < |src|) && i < |src|
    requires 4 * cols <= stride
    ensures BlockSum(src[i := v], stride, off, rows, cols)
            == BlockSum(src, stride, off, rows, cols)
               + if InPixels(stride, off, rows, cols, i) then v as int - src[i] as int else 0
  {
    hide InPixels, InRow, RowSum;
    if rows > 0 {
      if rows > 1 {
        MulMono(rows - 2, rows - 1, stride);
      }
      BlockCountsOnce(src, stride, off, rows - 1, cols, i, v);
      RowCountsOnce(src, off + (rows - 1) * stride, cols, i, v);
      InPixelsNext(stride, off, rows, cols, i);
    } else {
      NoPixels(stride, off, cols, i);
    }
  }

  lemma NoPixels(stride: nat, off: nat, cols: nat, i: nat)
    ensures !InPixels(stride, off, 0, cols, i)
  {}

  lemma MeanBounds(sum: nat, count: pos, lo: nat, hi: nat)
    requires lo * count <= sum <= hi * count
    ensures lo <= sum / count <= hi
  {
    MulDiv(lo, count);
    MulDiv(hi, count);
    DivMono(lo * count, sum, count);
    DivMono(sum, hi * count, count);
  }

  // ----- The image -----

  /** A source frame and the target dimensions. */
  datatype Job = Job(src: seq<byte>, srcW: u32, srcH: u32, stride: u32, dstW: u32, dstH: u32) {
    /** The source pixels lie inside `src`. */
    predicate Readable() {
      0 < srcW && 0 < srcH && 4 * srcW <= stride && stride * srcH <= |src|
    }

    /** The 32-bit index arithmetic of source and target does not wrap. */
    predicate Fits32() {
      stride * srcH < 0x1_0000_0000 && 4 * dstW * dstH < 0x1_0000_0000
    }

    /** The filter leaves the target at zero unless it shrinks at least one dimension. */
    predicate Averages() {
      0 < dstW && 0 < dstH && (dstW < srcW || dstH < srcH)
    }
  }

  /** The source rectangle behind one destination pixel, as a byte offset and a size in pixels. */
  datatype Block = Block(off: nat, rows: pos, cols: pos)

  /** All four channels of all pixels of the block are inside the source. */
  predicate Inside(j: Job, b: Block) {
    b.off + (b.rows - 1) * j.stride + 4 * (b.cols - 1) + 3 < |j.src|
  }

  /** How many source cells destination cell `d` averages. */
  function BlockLen(d: nat, src: nat, dst: pos): pos
    requires d < dst && src > 0
  {
    BlockInside(d, src, dst);
    Hi(d, src, dst) - Lo(d, src, dst)
  }

  function BlockOf(j: Job, dx: nat, dy: nat): Block
    requires j.Readable() && dx < j.dstW && dy < j.dstH
  {
    Block(Lo(dy, j.srcH, j.dstH) * j.stride + 4 * Lo(dx, j.srcW, j.dstW),
          BlockLen(dy, j.srcH, j.dstH), BlockLen(dx, j.srcW, j.dstW))
  }

  lemma BlockEnd(j: Job, sx: nat, sy: nat, b: Block)
    requires j.Readable() && sx + b.cols <= j.srcW && sy + b.rows <= j.srcH && b.off == sy * j.stride + 4 * sx
    ensures Inside(j, b)
  {
    assert sy * j.stride + (b.rows - 1) * j.stride == (sy + b.rows - 1) * j.stride;
    MulStrict(sy + b.rows - 1, j.srcH, j.stride);
  }

  /** No source index of the filter is out of bounds. */
  lemma BlockOfInside(j: Job, dx: nat, dy: nat)
    requires j.Readable() && dx < j.dstW && dy < j.dstH
    ensures Inside(j, BlockOf(j, dx, dy))
  {
    hide Lo, Hi, Inside;
    BlockInside(dx, j.srcW, j.dstW);
    BlockInside(dy, j.srcH, j.dstH);
    BlockEnd(j, Lo(dx, j.srcW, j.dstW), Lo(dy, j.srcH, j.dstH), BlockOf(j, dx, dy));
  }

  /** The floor mean of one channel over the block. */
  function Mean(j: Job, b: Block, ch: nat): nat
    requires ch < 4 && Inside(j, b)
  {
    BlockSum(j.src, j.stride, b.off + ch, b.rows, b.cols) / (b.rows * b.cols)
  }

  /** The mean of a channel lies between the smallest and the largest byte of the block. */
  lemma MeanWithin(j: Job, b: Block, ch: nat, lo: nat, hi: nat)
    requires ch < 4 && Inside(j, b)
    requires BlockWithin(j.src, j.stride, b.off + ch, b.rows, b.cols, lo, hi)
    ensures lo <= Mean(j, b, ch) <= hi
  {
    hide BlockSum, BlockWithin;
    var sum, count: pos := BlockSum(j.src, j.stride, b.off + ch, b.rows, b.cols), b.rows * b.cols;
    assert lo * count <= sum <= hi * count by {
      BlockSumBounds(j.src, j.stride, b.off + ch, b.rows, b.cols, lo, hi);
    }
    MeanBounds(sum, count, lo, hi);
  }

  /** 32-bit unsigned arithmetic wraps around. */
  function Wrap(n: nat): nat {
    n % 0x1_0000_0000
  }

  lemma WrapAdd(n: nat, m: nat)
    ensures Wrap(Wrap(n) + m) == Wrap(n + m)
  {
    var q, k := n / 0x1_0000_0000, (Wrap(n) + m) / 0x1_0000_0000;
    assert n + m == (q + k) * 0x1_0000_0000 + Wrap(Wrap(n) + m);
    DivModUnique(n + m, 0x1_0000_0000, q + k, Wrap(Wrap(n) + m));
  }

  /** What the code computes for a channel: its 32-bit accumulator over the number of pixels. */
  function CodeMean(j: Job, b: Block, ch: nat): nat
    requires ch < 4 && Inside(j, b)
  {
    Wrap(BlockSum(j.src, j.stride, b.off + ch, b.rows, b.cols)) / (b.rows * b.cols)
  }

  lemma CodeMeanIsByte(j: Job, b: Block, ch: nat)
    requires ch < 4 && Inside(j, b)
    ensures CodeMean(j, b, ch) <= Mean(j, b, ch) <= 255
  {
    hide BlockSum;
    MeanWithin(j, b, ch, 0, 255);
    var sum := BlockSum(j.src, j.stride, b.off + ch, b.rows, b.cols);
    DivMono(Wrap(sum), sum, b.rows * b.cols);
  }

  function Pixel(j: Job, b: Block): (p: seq<byte>)
    requires Inside(j, b)
    ensures |p| == 4
  {
    CodeMeanIsByte(j, b, 0); CodeMeanIsByte(j, b, 1); CodeMeanIsByte(j, b, 2); CodeMeanIsByte(j, b, 3);
    [ToByte(CodeMean(j, b, 0)), ToByte(CodeMean(j, b, 1)), ToByte(CodeMean(j, b, 2)), ToByte(CodeMean(j, b, 3))]
  }

  function Target(j: Job, dx: nat, dy: nat): (p: seq<byte>)
    requires j.Readable() && dx < j.dstW && dy < j.dstH
    ensures |p| == 4
  {
    BlockOfInside(j, dx, dy);
    Pixel(j, BlockOf(j, dx, dy))
  }

  /** The first `n` pixels of target row `dy`. */
  function Row(j: Job, dy: nat, n: nat): seq<byte>
    requires j.Readable() && dy < j.dstH && n <= j.dstW
  {
    if n == 0 then [] else Row(j, dy, n - 1) + Target(j, n - 1, dy)
  }

  /** The first `n` rows of the target. */
  function Rows(j: Job, n: nat): seq<byte>
    requires j.Readable() && n <= j.dstH
  {
    if n == 0 then [] else Rows(j, n - 1) + Row(j, n - 1, j.dstW)
  }

  lemma {:induction false} RowLength(j: Job, dy: nat, n: nat)
    requires j.Readable() && dy < j.dstH && n <= j.dstW
    ensures |Row(j, dy, n)| == 4 * n
  {
    hide Target;
    if n > 0 {
      RowLength(j, dy, n - 1);
    }
  }

  lemma {:induction false} RowsLength(j: Job, n: nat)
    requires j.Readable() && n <= j.dstH
    ensures |Rows(j, n)| == n * (4 * j.dstW)
  {
    hide Row;
    if n > 0 {
      RowsLength(j, n - 1);
      RowLength(j, n - 1, j.dstW);
      var w := 4 * j.dstW;
      assert n * w == (n - 1) * w + w;
    }
  }

  function Image(j: Job): seq<byte>
    requires j.Averages() ==> j.Readable()
  {
    if j.Averages() then Rows(j, j.dstH) else Zeros(j.dstH * (4 * j.dstW))
  }

  lemma ImageLength(j: Job)
    requires j.Averages() ==> j.Readable()
    ensures |Image(j)| == j.dstH * (4 * j.dstW)
  {
    if j.Averages() {
      RowsLength(j, j.dstH);
    }
  }

  lemma {:induction false} RowAt(j: Job, dy: nat, n: nat, dx: nat)
    requires j.Readable() && dy < j.dstH && dx < n <= j.dstW
    ensures |Row(j, dy, n)| == 4 * n && Row(j, dy, n)[4 * dx..4 * dx + 4] == Target(j, dx, dy)
    decreases n
  {
    hide Target;
    RowLength(j, dy, n);
    RowLength(j, dy, n - 1);
    if dx < n - 1 {
      RowAt(j, dy, n - 1, dx);
      SliceOfAppend(Row(j, dy, n - 1), Target(j, n - 1, dy), 4 * dx, 4 * dx + 4);
    }
  }

  lemma SliceOfAppend(a: seq<byte>, b: seq<byte>, m: nat, n: nat)
    requires m <= n <= |a|
    ensures (a + b)[m..n] == a[m..n]
  {}

  lemma {:induction false} RowsAt(j: Job, n: nat, dy: nat, at: nat)
    requires j.Readable() && dy < n <= j.dstH && at == |Rows(j, dy)|
    ensures at + 4 * j.dstW <= |Rows(j, n)| && Rows(j, n)[at..at + 4 * j.dstW] == Row(j, dy, j.dstW)
    decreases n
  {
    hide Row;
    RowLength(j, n - 1, j.dstW);
    if dy < n - 1 {
      RowsAt(j, n - 1, dy, at);
      SliceOfAppend(Rows(j, n - 1), Row(j, n - 1, j.dstW), at, at + 4 * j.dstW);
    }
  }

  lemma TargetBytes(j: Job, dx: nat, dy: nat, ch: nat)
    requires j.Readable() && dx < j.dstW && dy < j.dstH && ch < 4
    ensures Inside(j, BlockOf(j, dx, dy)) && Target(j, dx, dy)[ch] as nat == CodeMean(j, BlockOf(j, dx, dy), ch)
  {
    hide BlockOf, Inside, Mean, CodeMean;
    BlockOfInside(j, dx, dy);
    var b := BlockOf(j, dx, dy);
    CodeMeanIsByte(j, b, 0); CodeMeanIsByte(j, b, 1); CodeMeanIsByte(j, b, 2); CodeMeanIsByte(j, b, 3);
  }

  /** Every byte of the target is the wrapped sum of its channel over its block, divided. */
  lemma ImageIsCodeMean(j: Job, dx: nat, dy: nat, ch: nat, at: nat)
    requires j.Readable() && j.Averages() && dx < j.dstW && dy < j.dstH && ch < 4
    requires at == dy * (4 * j.dstW) + 4 * dx + ch
    ensures at < |Image(j)| && Inside(j, BlockOf(j, dx, dy))
    ensures Image(j)[at] as nat == CodeMean(j, BlockOf(j, dx, dy), ch)
  {
    hide BlockOf, Inside, CodeMean, Target, Row, Rows;
    var start := dy * (4 * j.dstW);
    RowsLength(j, dy);
    RowsAt(j, j.dstH, dy, start);
    RowAt(j, dy, j.dstW, dx);
    var row := Row(j, dy, j.dstW);
    assert Image(j)[at] == Image(j)[start..start + 4 * j.dstW][4 * dx + ch];
    assert row[4 * dx + ch] == row[4 * dx..4 * dx + 4][ch];
    TargetBytes(j, dx, dy, ch);
  }

  /** Unless it shrinks a dimension, the filter leaves the whole target at zero. */
  lemma BlackUnlessShrinking(j: Job, at: nat)
    requires j.dstW == 0 || j.dstH == 0 || (j.srcW <= j.dstW && j.srcH <= j.dstH)
    requires at < j.dstH * (4 * j.dstW)
    ensures at < |Image(j)| && Image(j)[at] == 0
  {}

  lemma PixelInRow(stride: nat, y: nat, x0: nat, cols: nat, sy: nat, sx: nat, ch: nat)
    requires 4 * (x0 + cols) <= stride && 4 * (sx + 1) <= stride && ch < 4
    ensures InRow(y * stride + 4 * x0 + ch, cols, sy * stride + 4 * sx + ch) <==> y == sy && x0 <= sx < x0 + cols
  {
    if y < sy {
      MulStrict(y, sy, stride);
    } else if sy < y {
      MulStrict(sy, y, stride);
    }
  }

  /** The bytes summed for a channel of a destination pixel are those of the source pixels that lie in
      its block on both axes. */
  lemma BlockPixels(j: Job, dx: nat, dy: nat, ch: nat, sx: nat, sy: nat, b: Block, off: nat, i: nat)
    requires j.Readable() && dx < j.dstW && dy < j.dstH && ch < 4 && sx < j.srcW && sy < j.srcH
    requires b == BlockOf(j, dx, dy) && off == b.off + ch && i == sy * j.stride + 4 * sx + ch
    ensures InPixels(j.stride, off, b.rows, b.cols, i)
       <==> InBlock(sx, dx, j.srcW, j.dstW) && InBlock(sy, dy, j.srcH, j.dstH)
  {
    hide Lo, Hi, InRowOf;
    BlockInside(dx, j.srcW, j.dstW);
    BlockInside(dy, j.srcH, j.dstH);
    var y0, x0 := Lo(dy, j.srcH, j.dstH), Lo(dx, j.srcW, j.dstW);
    if InPixels(j.stride, off, b.rows, b.cols, i) {
      var r: nat :| r < b.rows && InRowOf(j.stride, off, b.cols, r, i);
      PixelInBlockRow(j, b, y0, x0, ch, sx, sy, r, off, i);
    }
    if InBlock(sx, dx, j.srcW, j.dstW) && InBlock(sy, dy, j.srcH, j.dstH) {
      PixelInBlockRow(j, b, y0, x0, ch, sx, sy, sy - y0, off, i);
    }
  }

  lemma PixelInBlockRow(j: Job, b: Block, y0: nat, x0: nat, ch: nat, sx: nat, sy: nat, r: nat, off: nat, i: nat)
    requires j.Readable() && ch < 4 && sx < j.srcW && x0 + b.cols <= j.srcW && b.off == y0 * j.stride + 4 * x0
    requires off == b.off + ch && i == sy * j.stride + 4 * sx + ch
    ensures InRowOf(j.stride, off, b.cols, r, i) <==> y0 + r == sy && x0 <= sx < x0 + b.cols
  {
    hide InRow;
    PixelInRow(j.stride, y0 + r, x0, b.cols, sy, sx, ch);
    assert (y0 + r) * j.stride == y0 * j.stride + r * j.stride;
  }

  // ----- When the accumulators are wide enough -----

  /** The condition a caller can check: a white block does not overflow a 32-bit sum. */
  predicate SumFits(b: Block) {
    255 * (b.rows * b.cols) < 0x1_0000_0000
  }

  lemma FittingSum(j: Job, b: Block, ch: nat)
    requires ch < 4 && Inside(j, b) && SumFits(b)
    ensures CodeMean(j, b, ch) == Mean(j, b, ch)
  {
    hide BlockSum, Wrap;
    var sum, n := BlockSum(j.src, j.stride, b.off + ch, b.rows, b.cols), b.rows * b.cols;
    assert sum <= 255 * n by {
      BlockSumBounds(j.src, j.stride, b.off + ch, b.rows, b.cols, 0, 255);
    }
    SmallWrap(sum);
  }

  lemma SmallWrap(n: nat)
    requires n < 0x1_0000_0000
    ensures Wrap(n) == n
  {}

  /** Where the block's sum fits, every byte of the target is the floor mean of its channel. */
  lemma ImageIsBoxMean(j: Job, dx: nat, dy: nat, ch: nat, at: nat)
    requires j.Readable() && j.Averages() && dx < j.dstW && dy < j.dstH && ch < 4
    requires at == dy * (4 * j.dstW) + 4 * dx + ch && SumFits(BlockOf(j, dx, dy))
    ensures at < |Image(j)| && Inside(j, BlockOf(j, dx, dy))
    ensures Image(j)[at] as nat == Mean(j, BlockOf(j, dx, dy), ch)
  {
    hide BlockOf, Inside, CodeMean, Mean, SumFits, Image;
    ImageIsCodeMean(j, dx, dy, ch, at);
    FittingSum(j, BlockOf(j, dx, dy), ch);
  }

  function White(n: nat): (s: seq<byte>)
    ensures |s| == n && forall i :: 0 <= i < n ==> s[i] == 255
  {
    seq(n, _ => 255)
  }

  lemma WhiteSum(j: Job, b: Block, ch: nat)
    requires ch < 4 && Inside(j, b) && j.src == White(|j.src|)
    ensures BlockSum(j.src, j.stride, b.off + ch, b.rows, b.cols) == 255 * (b.rows * b.cols)
    ensures Mean(j, b, ch) == 255
  {
    hide BlockSum;
    BlockSumBounds(j.src, j.stride, b.off + ch, b.rows, b.cols, 255, 255);
    MulDiv(255, b.rows * b.cols);
  }

  /** A white block whose sum overflows comes out darker than white. */
  lemma WhiteDarkens(j: Job, b: Block, ch: nat)
    requires ch < 4 && Inside(j, b) && j.src == White(|j.src|)
    requires !SumFits(b) && b.rows * b.cols < 0x1_0000_0000
    ensures CodeMean(j, b, ch) < 255 == Mean(j, b, ch)
  {
    WhiteSum(j, b, ch);
    var n: pos := b.rows * b.cols;
    var wrapped := Wrap(255 * n);
    assert wrapped <= 255 * n - 0x1_0000_0000 < 254 * n;
    DivMono(wrapped, 254 * n, n);
    MulDiv(254, n);
  }

  /** The pixels of a block are among the pixels of the frame. */
  lemma BlockCount(j: Job, dx: nat, dy: nat)
    requires j.Readable() && j.Fits32() && dx < j.dstW && dy < j.dstH
    ensures BlockOf(j, dx, dy).rows * BlockOf(j, dx, dy).cols < 0x1_0000_0000
  {
    hide Lo, Hi;
    BlockInside(dx, j.srcW, j.dstW);
    BlockInside(dy, j.srcH, j.dstH);
    var b := BlockOf(j, dx, dy);
    MulMono(b.rows, j.srcH, b.cols);
    MulMono(b.cols, j.stride, j.srcH);
  }

  /** For all contents of the frame, a byte of the target is the floor mean of its channel if and
      only if 255 times the number of pixels in its block fits 32 bits. */
  lemma ImageExactly(j: Job, dx: nat, dy: nat, ch: nat, at: nat)
    requires j.Readable() && j.Averages() && j.Fits32() && dx < j.dstW && dy < j.dstH && ch < 4
    requires at == dy * (4 * j.dstW) + 4 * dx + ch
    ensures (forall src: seq<byte> :: |src| == |j.src| ==> ByteIsMean(j.(src := src), dx, dy, ch, at))
       <==> SumFits(BlockOf(j, dx, dy))
  {
    hide BlockOf, Inside, CodeMean, Mean, SumFits, Image, White;
    if SumFits(BlockOf(j, dx, dy)) {
      forall src: seq<byte> | |src| == |j.src| ensures ByteIsMean(j.(src := src), dx, dy, ch, at) {
        SameBlocks(j, src, dx, dy);
        ImageIsBoxMean(j.(src := src), dx, dy, ch, at);
      }
    } else {
      var white := j.(src := White(|j.src|));
      SameBlocks(j, white.src, dx, dy);
      ImageIsCodeMean(white, dx, dy, ch, at);
      BlockCount(white, dx, dy);
      WhiteDarkens(white, BlockOf(white, dx, dy), ch);
      assert !ByteIsMean(white, dx, dy, ch, at);
    }
  }

  predicate ByteIsMean(j: Job, dx: nat, dy: nat, ch: nat, at: nat)
    requires j.Readable() && j.Averages() && dx < j.dstW && dy < j.dstH && ch < 4
  {
    BlockOfInside(j, dx, dy);
    at < |Image(j)| && Image(j)[at] as nat == Mean(j, BlockOf(j, dx, dy), ch)
  }

  lemma SameBlocks(j: Job, src: seq<byte>, dx: nat, dy: nat)
    requires j.Readable() && |src| == |j.src| && dx < j.dstW && dy < j.dstH
    ensures BlockOf(j.(src := src), dx, dy) == BlockOf(j, dx, dy)
  {}

  /** A white frame of 8192 x 4096 pixels, shrunk to one. */
  function LargeWhite(): (j: Job)
    ensures j.Readable() && j.Averages() && j.Fits32() && |j.src| == 134_217_728
  {
    Job(White(134_217_728), 8192, 4096, 32768, 1, 1)
  }

  /** The block of a target of one pixel is the whole frame. */
  lemma WholeBlock(j: Job)
    requires j.Readable() && j.dstW == j.dstH == 1
    ensures BlockOf(j, 0, 0) == Block(0, j.srcH, j.srcW)
  {
    LoEnds(j.srcW, 1);
    LoEnds(j.srcH, 1);
  }

  lemma WrappedWhite()
    ensures Wrap(255 * (4096 * 8192)) / (4096 * 8192) == 127
  {}

  /** Its only pixel comes out as 127 instead of 255. */
  lemma LargeWhiteDarkens()
    ensures var j := LargeWhite();
            && |Image(j)| == 4 && Image(j)[0] == 127
            && Inside(j, BlockOf(j, 0, 0)) && Mean(j, BlockOf(j, 0, 0), 0) == 255
  {
    hide Image, White, BlockOf, Inside, BlockSum;
    var j := LargeWhite();
    WholeBlock(j);
    ImageLength(j);
    ImageIsCodeMean(j, 0, 0, 0, 0);
    WhiteSum(j, Block(0, 4096, 8192), 0);
    WrappedWhite();
  }

  /** When both dimensions shrink, every source pixel lies in the block of exactly one target pixel. */
  lemma PixelOwner(j: Job, sx: nat, sy: nat) returns (dx: nat, dy: nat)
    requires 0 < j.dstW <= j.srcW && 0 < j.dstH <= j.srcH && sx < j.srcW && sy < j.srcH
    ensures Owner(sx, dx, j.srcW, j.dstW) && Owner(sy, dy, j.srcH, j.dstH)
  {
    dx := ShrinkingOwner(sx, j.srcW, j.dstW);
    dy := ShrinkingOwner(sy, j.srcH, j.dstH);
  }

  // ----- The loops -----

  lemma RowStart(src: seq<byte>, off: nat, a: nat)
    requires a == Wrap(a)
    ensures a == Wrap(a + RowSum(src, off, 0))
  {}

  lemma RowStep(src: seq<byte>, off: nat, n: nat, a: nat)
    requires off + 4 * n < |src|
    ensures Wrap(Wrap(a + RowSum(src, off, n)) + src[off + n * 4] as nat) == Wrap(a + RowSum(src, off, n + 1))
  {
    WrapAdd(a + RowSum(src, off, n), src[off + n * 4] as nat);
  }

  /** Adds the four channels of `cols` pixels from byte `base` to the 32-bit accumulators. */
  method AverageRow(src: seq<byte>, base: nat, cols: pos, a0: nat, a1: nat, a2: nat, a3: nat, count: nat)
    returns (s0: nat, s1: nat, s2: nat, s3: nat, n: nat)
    requires base + 4 * (cols - 1) + 3 < |src|
    requires a0 == Wrap(a0) && a1 == Wrap(a1) && a2 == Wrap(a2) && a3 == Wrap(a3) && count == Wrap(count)
    ensures n == Wrap(count + cols)
    ensures s0 == Wrap(a0 + RowSum(src, base, cols)) && s1 == Wrap(a1 + RowSum(src, base + 1, cols))
    ensures s2 == Wrap(a2 + RowSum(src, base + 2, cols)) && s3 == Wrap(a3 + RowSum(src, base + 3, cols))
  {
    hide Wrap, RowSum;
    s0, s1, s2, s3, n := a0, a1, a2, a3, count;
    RowStart(src, base, a0); RowStart(src, base + 1, a1); RowStart(src, base + 2, a2); RowStart(src, base + 3, a3);
    for sx := 0 to cols
      invariant n == Wrap(count + sx)
      invariant s0 == Wrap(a0 + RowSum(src, base, sx)) && s1 == Wrap(a1 + RowSum(src, base + 1, sx))
      invariant s2 == Wrap(a2 + RowSum(src, base + 2, sx)) && s3 == Wrap(a3 + RowSum(src, base + 3, sx))
    {
      var off := base + sx * 4;
      RowStep(src, base, sx, a0); RowStep(src, base + 1, sx, a1);
      RowStep(src, base + 2, sx, a2); RowStep(src, base + 3, sx, a3);
      WrapAdd(count + sx, 1);
      s0 := Wrap(s0 + src[off] as nat);
      s1 := Wrap(s1 + src[off + 1] as nat);
      s2 := Wrap(s2 + src[off + 2] as nat);
      s3 := Wrap(s3 + src[off + 3] as nat);
      n := Wrap(n + 1);
    }
  }

  /** The first `r` rows of the block are inside the source. */
  predicate Reaches(j: Job, b: Block, r: nat) {
    r > 0 ==> b.off + (r - 1) * j.stride + 4 * (b.cols - 1) + 3 < |j.src|
  }

  /** One channel of the first `r` rows. */
  function ChannelSum(j: Job, b: Block, ch: nat, r: nat): nat
    requires ch < 4 && Reaches(j, b, r)
  {
    BlockSum(j.src, j.stride, b.off + ch, r, b.cols)
  }

  lemma NextRow(j: Job, b: Block, r: nat)
    requires Inside(j, b) && r < b.rows
    ensures b.off + r * j.stride + 4 * (b.cols - 1) + 3 < |j.src| && Reaches(j, b, r) && Reaches(j, b, r + 1)
    ensures (r + 1) * b.cols == r * b.cols + b.cols
  {
    MulMono(r, b.rows - 1, j.stride);
    if r > 0 {
      MulMono(r - 1, r, j.stride);
    }
  }

  lemma ChannelStep(j: Job, b: Block, ch: nat, r: nat, rowOff: nat)
    requires ch < 4 && Reaches(j, b, r) && Reaches(j, b, r + 1) && rowOff == b.off + r * j.stride
    ensures ChannelSum(j, b, ch, r + 1) == ChannelSum(j, b, ch, r) + RowSum(j.src, rowOff + ch, b.cols)
    ensures var sum := Wrap(Wrap(ChannelSum(j, b, ch, r)) + RowSum(j.src, rowOff + ch, b.cols));
            sum == Wrap(ChannelSum(j, b, ch, r + 1)) == Wrap(sum)
  {
    WrapAdd(ChannelSum(j, b, ch, r), RowSum(j.src, rowOff + ch, b.cols));
    WrapTwice(ChannelSum(j, b, ch, r + 1));
    assert b.off + ch + r * j.stride == rowOff + ch;
  }

  /** The accumulation loops of one destination pixel, with its 32-bit accumulators. */
  method AveragePixel(j: Job, b: Block) returns (p: seq<byte>)
    requires Inside(j, b) && b.rows * b.cols < 0x1_0000_0000
    ensures p == Pixel(j, b)
  {
    hide RowSum, BlockSum, ChannelSum, Wrap;
    EmptySums(j, b);
    var r0, r1, r2, r3, count := 0, 0, 0, 0, 0;
    for r := 0 to b.rows
      invariant Reaches(j, b, r) && count == Wrap(r * b.cols) == Wrap(count)
      invariant r0 == Wrap(ChannelSum(j, b, 0, r)) == Wrap(r0) && r1 == Wrap(ChannelSum(j, b, 1, r)) == Wrap(r1)
      invariant r2 == Wrap(ChannelSum(j, b, 2, r)) == Wrap(r2) && r3 == Wrap(ChannelSum(j, b, 3, r)) == Wrap(r3)
    {
      NextRow(j, b, r);
      var rowOff := b.off + r * j.stride;
      ChannelStep(j, b, 0, r, rowOff); ChannelStep(j, b, 1, r, rowOff);
      ChannelStep(j, b, 2, r, rowOff); ChannelStep(j, b, 3, r, rowOff);
      WrapAdd(r * b.cols, b.cols); WrapTwice((r + 1) * b.cols);
      r0, r1, r2, r3, count := AverageRow(j.src, rowOff, b.cols, r0, r1, r2, r3, count);
    }
    AllRows(j, b, 0); AllRows(j, b, 1); AllRows(j, b, 2); AllRows(j, b, 3);
    CodeMeanIsByte(j, b, 0); CodeMeanIsByte(j, b, 1); CodeMeanIsByte(j, b, 2); CodeMeanIsByte(j, b, 3);
    p := [ToByte(r0 / count), ToByte(r1 / count), ToByte(r2 / count), ToByte(r3 / count)];
  }

  lemma WrapTwice(n: nat)
    ensures Wrap(Wrap(n)) == Wrap(n)
  {}

  lemma AllRows(j: Job, b: Block, ch: nat)
    requires ch < 4 && Inside(j, b) && Reaches(j, b, b.rows) && b.rows * b.cols < 0x1_0000_0000
    ensures Wrap(b.rows * b.cols) == b.rows * b.cols
    ensures CodeMean(j, b, ch) == Wrap(ChannelSum(j, b, ch, b.rows)) / (b.rows * b.cols)
  {}

  lemma EmptySums(j: Job, b: Block)
    ensures ChannelSum(j, b, 0, 0) == 0 && ChannelSum(j, b, 1, 0) == 0
    ensures ChannelSum(j, b, 2, 0) == 0 && ChannelSum(j, b, 3, 0) == 0 && Wrap(0) == 0
  {}

  method TargetPixel(j: Job, dx: nat, dy: nat) returns (p: seq<byte>)
    requires j.Readable() && j.Fits32() && dx < j.dstW && dy < j.dstH
    ensures p == Target(j, dx, dy)
  {
    hide Inside, Pixel, BlockOf;
    BlockOfInside(j, dx, dy);
    BlockCount(j, dx, dy);
    p := AveragePixel(j, BlockOf(j, dx, dy));
  }

  /** One target row, written into its slice of the buffer. */
  method FillRow(j: Job, dy: nat, dst: array<byte>, at: nat)
    requires j.Readable() && j.Fits32() && dy < j.dstH && at + 4 * j.dstW <= dst.Length
    modifies dst
    ensures dst[..at + 4 * j.dstW] == old(dst[..at]) + Row(j, dy, j.dstW)
  {
    hide Target;
    for dx := 0 to j.dstW
      invariant dst[..at + 4 * dx] == old(dst[..at]) + Row(j, dy, dx)
    {
      var p := TargetPixel(j, dx, dy);
      var di := at + 4 * dx;
      ghost var before := dst[..di];
      dst[di], dst[di + 1], dst[di + 2], dst[di + 3] := p[0], p[1], p[2], p[3];
      assert dst[..di + 4] == before + p;
      AppendAssoc(old(dst[..at]), Row(j, dy, dx), p);
    }
  }

  lemma RowRoom(dy: nat, h: nat, stride: nat)
    requires dy < h
    ensures dy * stride + stride <= h * stride && (dy + 1) * stride == dy * stride + stride
  {
    MulStrict(dy, h, stride);
  }

  /** The rows, one after the other. */
  method FillRows(j: Job, dst: array<byte>, dstStride: nat)
    requires j.Readable() && j.Fits32() && dstStride == 4 * j.dstW && dst.Length == j.dstH * dstStride
    modifies dst
    ensures dst[..] == Rows(j, j.dstH)
  {
    hide Row;
    var at := 0;
    for dy := 0 to j.dstH
      invariant at == dy * dstStride <= dst.Length && dst[..at] == Rows(j, dy)
    {
      RowRoom(dy, j.dstH, dstStride);
      FillRow(j, dy, dst, at);
      at := at + dstStride;
    }
    assert dst[..dst.Length] == dst[..];
  }

  /** Fills a fresh target buffer row by row. */
  method DownscaleBox(j: Job) returns (dst: array<byte>, dstStride: nat)
    requires j.Fits32() && (j.Averages() ==> j.Readable())
    ensures fresh(dst) && dst[..] == Image(j) && dstStride == j.dstW * 4
  {
    hide Rows;
    dstStride := j.dstW * 4;
    dst := new byte[j.dstH * dstStride](_ => 0);
    if j.dstW == 0 || j.dstH == 0 || (j.dstW >= j.srcW && j.dstH >= j.srcH) {
      assert dst[..] == Zeros(j.dstH * dstStride);
      return;
    }
    FillRows(j, dst, dstStride);
  }
}
