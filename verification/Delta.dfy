/** XOR delta coding of damage rectangles.

    A rectangle is a list of row spans in the flat frame. The encoders gather the XOR of
    two frames along the spans; the decoder scatters it back over a base frame. */
module Delta {
  import opened Arith
  import opened Bytes

  datatype DamageRect = DamageRect(x: u32, y: u32, width: u32, height: u32)

  /** Runs of consecutive frame bytes: `len` of them from `start`, then the rest. */
  datatype Spans = Nil | Cons(start: nat, len: nat, tail: Spans)

  function RowStart(stride: nat, r: DamageRect, row: nat): nat {
    (r.y + row) * stride + r.x * 4
  }

  /** The rows of `r` from `row` on, in front of `rest`. */
  function RowSpans(stride: nat, r: DamageRect, row: nat, rest: Spans): Spans
    decreases r.height - row
  {
    if row >= r.height then rest
    else Cons(RowStart(stride, r, row), r.width * 4, RowSpans(stride, r, row + 1, rest))
  }

  function SpansFrom(stride: nat, rects: seq<DamageRect>, k: nat): Spans
    decreases |rects| - k
  {
    if k >= |rects| then Nil else RowSpans(stride, rects[k], 0, SpansFrom(stride, rects, k + 1))
  }

  function SpansOf(stride: nat, rects: seq<DamageRect>): Spans {
    SpansFrom(stride, rects, 0)
  }

  /** Every span indexes the frame within its bounds; a run of no bytes indexes nothing. */
  predicate Reach(spans: Spans, n: nat) {
    spans.Cons? ==> (spans.len == 0 || spans.start + spans.len <= n) && Reach(spans.tail, n)
  }

  /** Every span can be sliced out of the frame, which an empty slice past the end cannot. */
  predicate Fit(spans: Spans, n: nat) {
    spans.Cons? ==> spans.start + spans.len <= n && Fit(spans.tail, n)
  }

  lemma {:induction false} FitReaches(spans: Spans, n: nat)
    requires Fit(spans, n)
    ensures Reach(spans, n)
  {
    if spans.Cons? {
      FitReaches(spans.tail, n);
    }
  }

  predicate Covered(spans: Spans, i: nat) {
    spans.Cons? && (spans.start <= i < spans.start + spans.len || Covered(spans.tail, i))
  }

  ghost predicate CoversWithin(spans: Spans, n: nat) {
    forall i: nat :: Covered(spans, i) ==> i < n
  }

  lemma TailCovers(spans: Spans, n: nat)
    requires spans.Cons?
    ensures CoversWithin(spans, n)
       <==> (spans.len == 0 || spans.start + spans.len <= n) && CoversWithin(spans.tail, n)
  {
    if CoversWithin(spans, n) {
      forall i: nat | Covered(spans.tail, i) ensures i < n {
        assert Covered(spans, i);
      }
      if spans.len > 0 {
        assert Covered(spans, spans.start + spans.len - 1);
      }
    }
    if (spans.len == 0 || spans.start + spans.len <= n) && CoversWithin(spans.tail, n) {
      forall i: nat | Covered(spans, i) ensures i < n {
        if i < spans.start || i >= spans.start + spans.len {
          assert Covered(spans.tail, i);
        }
      }
    }
  }

  /** The decoder stays in bounds exactly if every byte it would write is inside the frame. */
  lemma {:induction false} ReachExactly(spans: Spans, n: nat)
    ensures Reach(spans, n) <==> CoversWithin(spans, n)
  {
    if spans.Cons? {
      ReachExactly(spans.tail, n);
      TailCovers(spans, n);
    }
  }

  function Total(spans: Spans): nat {
    match spans
    case Nil => 0
    case Cons(_, len, tail) => len + Total(tail)
  }

  /** The bytes of `a` along the spans. */
  function Gather(spans: Spans, a: seq<byte>): seq<byte>
    requires Fit(spans, |a|)
  {
    match spans
    case Nil => []
    case Cons(start, len, tail) => a[start..start + len] + Gather(tail, a)
  }

  lemma {:induction false} GatherLength(spans: Spans, a: seq<byte>)
    requires Fit(spans, |a|)
    ensures |Gather(spans, a)| == Total(spans)
  {
    if spans.Cons? {
      GatherLength(spans.tail, a);
    }
  }

  function Write(out: seq<byte>, start: nat, data: seq<byte>): (r: seq<byte>)
    requires start + |data| <= |out|
    ensures |r| == |out|
  {
    out[..start] + data + out[start + |data|..]
  }

  lemma WriteAt(out: seq<byte>, start: nat, data: seq<byte>, i: nat)
    requires start + |data| <= |out| && i < |out|
    ensures Write(out, start, data)[i] == if start <= i < start + |data| then data[i - start] else out[i]
  {}

  /** `prev XOR delta` for the span at `start`, the delta being read at `offset`. */
  function Line(delta: seq<byte>, offset: nat, prev: seq<byte>, start: nat, len: nat): (r: seq<byte>)
    requires start + len <= |prev| && offset + len <= |delta|
    ensures |r| == len
  {
    Xor(prev[start..start + len], delta[offset..offset + len])
  }

  /** Writes the lines of all spans into `out`, reading `delta` from `offset` on. */
  function Scatter(spans: Spans, delta: seq<byte>, offset: nat, prev: seq<byte>, out: seq<byte>): (r: seq<byte>)
    requires Reach(spans, |prev|) && |out| == |prev| && offset + Total(spans) <= |delta|
    ensures |r| == |prev|
    decreases spans
  {
    match spans
    case Nil => out
    case Cons(start, len, tail) =>
      if len == 0 then Scatter(tail, delta, offset, prev, out)
      else Scatter(tail, delta, offset + len, prev, Write(out, start, Line(delta, offset, prev, start, len)))
  }

  function Encode(cur: seq<byte>, prev: seq<byte>, stride: nat, rects: seq<DamageRect>): (r: seq<byte>)
    requires |cur| == |prev| && Fit(SpansOf(stride, rects), |cur|)
    ensures |r| == Total(SpansOf(stride, rects)) && Reach(SpansOf(stride, rects), |cur|)
  {
    FitReaches(SpansOf(stride, rects), |cur|);
    GatherLength(SpansOf(stride, rects), Xor(cur, prev));
    Gather(SpansOf(stride, rects), Xor(cur, prev))
  }

  function Decode(delta: seq<byte>, prev: seq<byte>, stride: nat, rects: seq<DamageRect>): (r: seq<byte>)
    requires Reach(SpansOf(stride, rects), |prev|) && Total(SpansOf(stride, rects)) <= |delta|
    ensures |r| == |prev|
  {
    Scatter(SpansOf(stride, rects), delta, 0, prev, prev)
  }

  // ----- Decoding what was gathered -----

  /** From `offset` on, `delta` holds the bytes of `d` along the spans and nothing else. */
  predicate Holds(spans: Spans, delta: seq<byte>, offset: nat, d: seq<byte>)
    requires Fit(spans, |d|)
  {
    match spans
    case Nil => offset == |delta|
    case Cons(start, len, tail) =>
      && offset + len <= |delta| && delta[offset..offset + len] == d[start..start + len]
      && Holds(tail, delta, offset + len, d)
  }

  lemma {:induction false} GatherHolds(spans: Spans, before: seq<byte>, d: seq<byte>)
    requires Fit(spans, |d|)
    ensures Holds(spans, before + Gather(spans, d), |before|, d)
  {
    match spans
    case Nil =>
    case Cons(start, len, tail) =>
      var line := d[start..start + len];
      AppendAssoc(before, line, Gather(tail, d));
      AppendMiddle(before, line, Gather(tail, d));
      GatherHolds(tail, before + line, d);
  }

  lemma AppendMiddle(a: seq<byte>, b: seq<byte>, c: seq<byte>)
    ensures (a + b + c)[|a|..|a| + |b|] == b
  {}

  /** Scattering a gathered delta writes `prev XOR d` where a span passes and leaves `out` elsewhere. */
  lemma {:induction false} ScatterGathered(spans: Spans, delta: seq<byte>, offset: nat, d: seq<byte>,
                                           prev: seq<byte>, out: seq<byte>, i: nat)
    requires |d| == |prev| == |out| && Fit(spans, |prev|) && Reach(spans, |prev|) && i < |prev|
    requires Holds(spans, delta, offset, d) && offset + Total(spans) == |delta|
    ensures Scatter(spans, delta, offset, prev, out)[i] == if Covered(spans, i) then prev[i] ^ d[i] else out[i]
    decreases spans
  {
    hide Line, Write;
    if spans.Cons? && spans.len == 0 {
      ScatterGathered(spans.tail, delta, offset, d, prev, out, i);
    } else if spans.Cons? {
      var next := Write(out, spans.start, Line(delta, offset, prev, spans.start, spans.len));
      assert next[i] == if spans.start <= i < spans.start + spans.len then prev[i] ^ d[i] else out[i] by {
        LineAt(delta, offset, prev, d, spans.start, spans.len, i);
        WriteAt(out, spans.start, Line(delta, offset, prev, spans.start, spans.len), i);
      }
      ScatterGathered(spans.tail, delta, offset + spans.len, d, prev, next, i);
    }
  }

  lemma LineAt(delta: seq<byte>, offset: nat, prev: seq<byte>, d: seq<byte>, start: nat, len: nat, i: nat)
    requires |d| == |prev| && start + len <= |prev| && offset + len <= |delta|
    requires delta[offset..offset + len] == d[start..start + len]
    ensures start <= i < start + len ==> Line(delta, offset, prev, start, len)[i - start] == prev[i] ^ d[i]
  {}

  /** Decoding an encoded delta over any base flips exactly the covered bytes by the XOR of
      the two encoded frames; overlapping rectangles are flipped once. The decoder reads
      exactly the bytes the encoder wrote. */
  lemma DecodeEncode(cur: seq<byte>, prev: seq<byte>, base: seq<byte>, stride: nat, rects: seq<DamageRect>)
    requires |cur| == |prev| == |base| && Fit(SpansOf(stride, rects), |cur|)
    ensures var r := Decode(Encode(cur, prev, stride, rects), base, stride, rects);
            forall i :: 0 <= i < |base| ==>
              r[i] == if Covered(SpansOf(stride, rects), i) then base[i] ^ (cur[i] ^ prev[i]) else base[i]
  {
    hide Scatter, Gather, SpansOf;
    var spans, d := SpansOf(stride, rects), Xor(cur, prev);
    var delta := Gather(spans, d);
    GatherLength(spans, d);
    FitReaches(spans, |base|);
    forall i | 0 <= i < |base|
      ensures Scatter(spans, delta, 0, base, base)[i]
              == if Covered(spans, i) then base[i] ^ (cur[i] ^ prev[i]) else base[i]
    {
      GatherHolds(spans, [], d);
      AppendEmpty(delta);
      ScatterGathered(spans, delta, 0, d, base, base, i);
    }
  }

  /** Over its own base the decoder rebuilds `cur` inside the rectangles and `prev` outside. */
  lemma DecodeOwnBase(cur: seq<byte>, prev: seq<byte>, stride: nat, rects: seq<DamageRect>)
    requires |cur| == |prev| && Fit(SpansOf(stride, rects), |cur|)
    ensures var r := Decode(Encode(cur, prev, stride, rects), prev, stride, rects);
            forall i :: 0 <= i < |cur| ==> r[i] == if Covered(SpansOf(stride, rects), i) then cur[i] else prev[i]
  {
    DecodeEncode(cur, prev, prev, stride, rects);
    forall i | 0 <= i < |cur| ensures prev[i] ^ (cur[i] ^ prev[i]) == cur[i] {
      XorCancels(prev[i], cur[i]);
      assert cur[i] ^ prev[i] == prev[i] ^ cur[i];
    }
  }

  // ----- Decoding is linear in the base -----

  /** `x` is the base byte `b` with the bits of `z` flipped. */
  predicate Flipped(x: byte, b: byte, z: byte) {
    x == b ^ z
  }

  lemma LineLinear(delta: seq<byte>, offset: nat, base: seq<byte>, zero: seq<byte>, start: nat, len: nat, i: nat)
    requires |base| == |zero| && start + len <= |base| && offset + len <= |delta| && i < |base| && zero[i] == 0
    ensures start <= i < start + len
            ==> Flipped(Line(delta, offset, base, start, len)[i - start], base[i],
                        Line(delta, offset, zero, start, len)[i - start])
  {}

  lemma WriteLinear(out: seq<byte>, zeroOut: seq<byte>, start: nat, line: seq<byte>, zeroLine: seq<byte>, b: byte, i: nat)
    requires |out| == |zeroOut| && |line| == |zeroLine| && start + |line| <= |out| && i < |out|
    requires Flipped(out[i], b, zeroOut[i])
    requires start <= i < start + |line| ==> Flipped(line[i - start], b, zeroLine[i - start])
    ensures Flipped(Write(out, start, line)[i], b, Write(zeroOut, start, zeroLine)[i])
  {
    hide Flipped, Write;
    WriteAt(out, start, line, i);
    WriteAt(zeroOut, start, zeroLine, i);
  }

  lemma {:induction false} ScatterLinear(spans: Spans, delta: seq<byte>, offset: nat, base: seq<byte>, zero: seq<byte>,
                                         out: seq<byte>, zeroOut: seq<byte>, i: nat)
    requires Reach(spans, |base|) && |base| == |zero| == |out| == |zeroOut| && offset + Total(spans) <= |delta|
    requires i < |base| && zero[i] == 0 && Flipped(out[i], base[i], zeroOut[i])
    ensures Flipped(Scatter(spans, delta, offset, base, out)[i], base[i],
                    Scatter(spans, delta, offset, zero, zeroOut)[i])
    decreases spans
  {
    hide Flipped, Line, Write, Xor;
    if spans.Cons? && spans.len == 0 {
      ScatterLinear(spans.tail, delta, offset, base, zero, out, zeroOut, i);
    } else if spans.Cons? {
      var line := Line(delta, offset, base, spans.start, spans.len);
      var zeroLine := Line(delta, offset, zero, spans.start, spans.len);
      var next, zeroNext := Write(out, spans.start, line), Write(zeroOut, spans.start, zeroLine);
      LineLinear(delta, offset, base, zero, spans.start, spans.len, i);
      WriteLinear(out, zeroOut, spans.start, line, zeroLine, base[i], i);
      ScatterLinear(spans.tail, delta, offset + spans.len, base, zero, next, zeroNext, i);
    }
  }

  /** Whatever the delta, decoding it flips fixed bits: those it would set over an all-zero base. */
  lemma DecodeLinear(delta: seq<byte>, base: seq<byte>, stride: nat, rects: seq<DamageRect>)
    requires Reach(SpansOf(stride, rects), |base|) && Total(SpansOf(stride, rects)) <= |delta|
    ensures Decode(delta, base, stride, rects) == Xor(base, Decode(delta, Zeros(|base|), stride, rects))
  {
    hide Scatter, SpansOf;
    var zero := Zeros(|base|);
    var mask := Decode(delta, zero, stride, rects);
    forall i | 0 <= i < |base| ensures Flipped(Decode(delta, base, stride, rects)[i], base[i], mask[i]) {
      ScatterLinear(SpansOf(stride, rects), delta, 0, base, zero, base, zero, i);
    }
  }

  // ----- Rectangles and regions -----

  function Append(a: Spans, b: Spans): Spans {
    match a
    case Nil => b
    case Cons(start, len, tail) => Cons(start, len, Append(tail, b))
  }

  lemma {:induction false} RowSpansAppend(stride: nat, r: DamageRect, row: nat, rest: Spans, b: Spans)
    ensures Append(RowSpans(stride, r, row, rest), b) == RowSpans(stride, r, row, Append(rest, b))
    decreases r.height - row
  {
    if row < r.height {
      RowSpansAppend(stride, r, row + 1, rest, b);
    }
  }

  lemma {:induction false} SpansOfConcat(stride: nat, a: seq<DamageRect>, b: seq<DamageRect>, k: nat)
    requires k <= |a| + |b|
    ensures SpansFrom(stride, a + b, k)
            == if k <= |a| then Append(SpansFrom(stride, a, k), SpansOf(stride, b)) else SpansFrom(stride, b, k - |a|)
    decreases |a| + |b| - k
  {
    if k < |a| + |b| {
      SpansOfConcat(stride, a, b, k + 1);
      if k < |a| {
        RowSpansAppend(stride, a[k], 0, SpansFrom(stride, a, k + 1), SpansOf(stride, b));
      }
    }
  }

  lemma {:induction false} FitAppend(a: Spans, b: Spans, n: nat)
    ensures Fit(Append(a, b), n) <==> Fit(a, n) && Fit(b, n)
  {
    if a.Cons? {
      FitAppend(a.tail, b, n);
    }
  }

  lemma {:induction false} GatherAppend(a: Spans, b: Spans, d: seq<byte>)
    requires Fit(a, |d|) && Fit(b, |d|) && Fit(Append(a, b), |d|)
    ensures Gather(Append(a, b), d) == Gather(a, d) + Gather(b, d)
  {
    if a.Nil? {
      AppendEmpty(Gather(b, d));
    } else {
      GatherAppend(a.tail, b, d);
      AppendAssoc(d[a.start..a.start + a.len], Gather(a.tail, d), Gather(b, d));
    }
  }

  /** The delta of a region list is the concatenation of the deltas of its parts. */
  lemma EncodeConcat(cur: seq<byte>, prev: seq<byte>, stride: nat, a: seq<DamageRect>, b: seq<DamageRect>)
    requires |cur| == |prev| && Fit(SpansOf(stride, a + b), |cur|)
    ensures Fit(SpansOf(stride, a), |cur|) && Fit(SpansOf(stride, b), |cur|)
    ensures Encode(cur, prev, stride, a + b) == Encode(cur, prev, stride, a) + Encode(cur, prev, stride, b)
  {
    SpansOfConcat(stride, a, b, 0);
    FitAppend(SpansOf(stride, a), SpansOf(stride, b), |cur|);
    GatherAppend(SpansOf(stride, a), SpansOf(stride, b), Xor(cur, prev));
  }

  lemma {:induction false} RowSpansTotal(stride: nat, r: DamageRect, row: nat, rest: Spans)
    requires row <= r.height
    ensures Total(RowSpans(stride, r, row, rest)) == r.width * 4 * (r.height - row) + Total(rest)
    decreases r.height - row
  {
    if row < r.height {
      RowSpansTotal(stride, r, row + 1, rest);
      assert r.width * 4 * (r.height - row) == r.width * 4 * (r.height - (row + 1)) + r.width * 4;
    }
  }

  function RegionLen(r: DamageRect): nat {
    r.width * 4 * r.height
  }

  /** The byte length the compressor assumes for a region is what the encoder writes for it. */
  lemma EncodeOneLength(cur: seq<byte>, prev: seq<byte>, stride: nat, r: DamageRect)
    requires |cur| == |prev| && Fit(SpansOf(stride, [r]), |cur|)
    ensures |Encode(cur, prev, stride, [r])| == RegionLen(r)
  {
    RowSpansTotal(stride, r, 0, Nil);
    assert SpansFrom(stride, [r], 1) == Nil;
  }

  lemma NextRows(n: nat, w: nat)
    ensures n == 0 ==> n * w == 0
    ensures n > 0 ==> n * w == (n - 1) * w + w && w <= n * w
  {
    if n > 0 {
      MulMono(1, n, w);
    }
  }

  lemma GatherHead(start: nat, len: nat, tail: Spans, d: seq<byte>, at: nat)
    requires Fit(Cons(start, len, tail), |d|) && at < len + |Gather(tail, d)|
    ensures at < |Gather(Cons(start, len, tail), d)|
    ensures Gather(Cons(start, len, tail), d)[at] == if at < len then d[start + at] else Gather(tail, d)[at - len]
  {}

  /** Row `row + n` of the rectangle lies in the gathered bytes where the rows before it end. */
  lemma {:induction false} GatherRowAt(stride: nat, r: DamageRect, row: nat, rest: Spans, d: seq<byte>, n: nat, c: nat,
                                       at: nat)
    requires Fit(RowSpans(stride, r, row, rest), |d|) && row + n < r.height && c < r.width * 4
    requires at == n * (r.width * 4) + c
    ensures at < |Gather(RowSpans(stride, r, row, rest), d)| && RowStart(stride, r, row + n) + c < |d|
    ensures Gather(RowSpans(stride, r, row, rest), d)[at] == d[RowStart(stride, r, row + n) + c]
    decreases n
  {
    hide RowStart, Gather;
    NextRows(n, r.width * 4);
    if n > 0 {
      GatherRowAt(stride, r, row + 1, rest, d, n - 1, c, at - r.width * 4);
    }
    GatherHead(RowStart(stride, r, row), r.width * 4, RowSpans(stride, r, row + 1, rest), d, at);
  }

  /** The delta of a region by its bytes: its rows from the top, each from the left, and in every place
      the XOR of the two frames there. */
  lemma EncodeOneAt(cur: seq<byte>, prev: seq<byte>, stride: nat, r: DamageRect, k: nat, c: nat, at: nat, from: nat)
    requires |cur| == |prev| && Fit(SpansOf(stride, [r]), |cur|) && k < r.height && c < r.width * 4
    requires at == k * (r.width * 4) + c && from == (r.y + k) * stride + 4 * r.x + c
    ensures at < |Encode(cur, prev, stride, [r])| && from < |cur|
    ensures Encode(cur, prev, stride, [r])[at] == cur[from] ^ prev[from]
  {
    assert SpansFrom(stride, [r], 1) == Nil;
    assert RowStart(stride, r, k) + c == from;
    hide RowStart, Fit, Gather;
    GatherRowAt(stride, r, 0, Nil, Xor(cur, prev), k, c, at);
  }

  /** Decoding leaves every byte outside the rectangles as it was. */
  lemma {:induction false} ScatterOutside(spans: Spans, delta: seq<byte>, offset: nat, prev: seq<byte>, out: seq<byte>,
                                          i: nat)
    requires Reach(spans, |prev|) && |out| == |prev| && offset + Total(spans) <= |delta|
    requires i < |prev| && !Covered(spans, i)
    ensures Scatter(spans, delta, offset, prev, out)[i] == out[i]
    decreases spans
  {
    hide Line, Write;
    if spans.Cons? && spans.len == 0 {
      ScatterOutside(spans.tail, delta, offset, prev, out, i);
    } else if spans.Cons? {
      var line := Line(delta, offset, prev, spans.start, spans.len);
      WriteAt(out, spans.start, line, i);
      ScatterOutside(spans.tail, delta, offset + spans.len, prev, Write(out, spans.start, line), i);
    }
  }

  // ----- Pixels -----

  predicate InFrame(r: DamageRect, width: nat, height: nat) {
    r.x + r.width <= width && r.y + r.height <= height
  }

  predicate AllInFrame(rects: seq<DamageRect>, width: nat, height: nat) {
    forall k :: 0 <= k < |rects| ==> InFrame(rects[k], width, height)
  }

  /** Byte column `c` of row `y` lies in the rectangle. */
  predicate InRect(r: DamageRect, y: nat, c: nat) {
    r.y <= y < r.y + r.height && 4 * r.x <= c < 4 * (r.x + r.width)
  }

  predicate SomeRect(rects: seq<DamageRect>, y: nat, c: nat) {
    exists k :: 0 <= k < |rects| && InRect(rects[k], y, c)
  }

  lemma {:induction false} RowSpansFit(stride: nat, r: DamageRect, row: nat, rest: Spans, width: nat, height: nat)
    requires InFrame(r, width, height) && 4 * width <= stride && Fit(rest, stride * height)
    ensures Fit(RowSpans(stride, r, row, rest), stride * height)
    decreases r.height - row
  {
    if row < r.height {
      MulStrict(r.y + row, height, stride);
      RowSpansFit(stride, r, row + 1, rest, width, height);
    }
  }

  /** Rectangles inside the frame never reach outside the buffer. */
  lemma {:induction false} SpansFit(stride: nat, rects: seq<DamageRect>, k: nat, width: nat, height: nat)
    requires AllInFrame(rects, width, height) && 4 * width <= stride
    ensures Fit(SpansFrom(stride, rects, k), stride * height)
    decreases |rects| - k
  {
    if k < |rects| {
      SpansFit(stride, rects, k + 1, width, height);
      RowSpansFit(stride, rects[k], 0, SpansFrom(stride, rects, k + 1), width, height);
    }
  }

  /** A span of one row meets row `y` only if they are the same row. */
  lemma RowStartHas(stride: nat, r: DamageRect, row: nat, y: nat, c: nat)
    requires c < stride && 4 * (r.x + r.width) <= stride
    ensures RowStart(stride, r, row) <= y * stride + c < RowStart(stride, r, row) + r.width * 4
       <==> y == r.y + row && 4 * r.x <= c < 4 * (r.x + r.width)
  {
    if y < r.y + row {
      MulStrict(y, r.y + row, stride);
    } else if y > r.y + row {
      MulStrict(r.y + row, y, stride);
    }
  }

  lemma {:induction false} RowSpansCover(stride: nat, r: DamageRect, row: nat, rest: Spans, y: nat, c: nat)
    requires c < stride && 4 * (r.x + r.width) <= stride
    ensures Covered(RowSpans(stride, r, row, rest), y * stride + c)
       <==> (r.y + row <= y && InRect(r, y, c)) || Covered(rest, y * stride + c)
    decreases r.height - row
  {
    if row < r.height {
      RowStartHas(stride, r, row, y, c);
      RowSpansCover(stride, r, row + 1, rest, y, c);
    }
  }

  lemma {:induction false} SpansFromCover(stride: nat, rects: seq<DamageRect>, k: nat,
                                          width: nat, height: nat, y: nat, c: nat)
    requires AllInFrame(rects, width, height) && 4 * width <= stride && c < stride
    ensures Covered(SpansFrom(stride, rects, k), y * stride + c)
       <==> exists j :: k <= j < |rects| && InRect(rects[j], y, c)
    decreases |rects| - k
  {
    if k < |rects| {
      RowSpansCover(stride, rects[k], 0, SpansFrom(stride, rects, k + 1), y, c);
      SpansFromCover(stride, rects, k + 1, width, height, y, c);
    }
  }

  /** The spans of a region list cover a byte exactly when one of its rectangles does. */
  lemma SpansCover(stride: nat, rects: seq<DamageRect>, width: nat, height: nat, y: nat, c: nat)
    requires AllInFrame(rects, width, height) && 4 * width <= stride && c < stride
    ensures Covered(SpansOf(stride, rects), y * stride + c) <==> SomeRect(rects, y, c)
  {
    SpansFromCover(stride, rects, 0, width, height, y, c);
  }
}
