/** The delta coders as the loops they are, each proved against `Delta`. */
module DeltaCodec {
  import opened Bytes
  import opened Delta

  // Width of one vector register in bytes.
  const LANE := 32

  lemma XorConcat(a: seq<byte>, b: seq<byte>, m: nat, n: nat)
    requires |a| == |b| && m <= n <= |a|
    ensures Xor(a, b)[..n] == Xor(a, b)[..m] + Xor(a[m..n], b[m..n])
  {
    XorSlice(a, b, m, n);
  }

  /** Appends the XOR of two equal slices: whole lanes first, then the tail byte by byte. */
  method XorIntoVecSimd(a: seq<byte>, b: seq<byte>, dst: seq<byte>) returns (r: seq<byte>)
    requires |a| == |b|
    ensures r == dst + Xor(a, b)
  {
    r := dst;
    var chunks, tail := |a| / LANE, |a| % LANE;
    for i := 0 to chunks
      invariant r == dst + Xor(a, b)[..i * LANE]
    {
      var off := i * LANE;
      XorConcat(a, b, off, off + LANE);
      r := r + Xor(a[off..off + LANE], b[off..off + LANE]);
    }
    var tailOff := chunks * LANE;
    for i := 0 to tail
      invariant r == dst + Xor(a, b)[..tailOff + i]
    {
      r := r + [a[tailOff + i] ^ b[tailOff + i]];
    }
    assert Xor(a, b)[..|a|] == Xor(a, b);
  }

  /** `goal` is what has been output so far and the bytes of `d` along the spans still to go. */
  predicate ToGo(goal: seq<byte>, out: seq<byte>, spans: Spans, d: seq<byte>) {
    Fit(spans, |d|) && goal == out + Gather(spans, d)
  }

  lemma ToGoStart(out: seq<byte>, cur: seq<byte>, prev: seq<byte>, stride: nat, regions: seq<DamageRect>)
    requires |cur| == |prev| && Fit(SpansOf(stride, regions), |cur|)
    ensures ToGo(out + Encode(cur, prev, stride, regions), out, SpansFrom(stride, regions, 0), Xor(cur, prev))
  {}

  lemma ToGoEnd(goal: seq<byte>, out: seq<byte>, d: seq<byte>)
    requires ToGo(goal, out, Nil, d)
    ensures goal == out
  {
    AppendEmpty(out);
  }

  lemma ToGoTail(goal: seq<byte>, out: seq<byte>, spans: Spans, d: seq<byte>)
    requires spans.Cons? && ToGo(goal, out, spans, d)
    ensures spans.start + spans.len <= |d| && ToGo(goal, out + d[spans.start..spans.start + spans.len], spans.tail, d)
  {
    AppendAssoc(out, d[spans.start..spans.start + spans.len], Gather(spans.tail, d));
  }

  /** One row of an encoder: its bytes move from what is to go to the output. */
  lemma ToGoRow(goal: seq<byte>, out: seq<byte>, cur: seq<byte>, prev: seq<byte>, stride: nat, r: DamageRect,
                row: nat, rest: Spans)
    requires |cur| == |prev| && row < r.height && ToGo(goal, out, RowSpans(stride, r, row, rest), Xor(cur, prev))
    ensures var start := RowStart(stride, r, row);
            var end := start + r.width * 4;
            && end <= |cur|
            && ToGo(goal, out + Xor(cur[start..end], prev[start..end]),
                    RowSpans(stride, r, row + 1, rest), Xor(cur, prev))
  {
    hide ToGo, RowStart, Xor;
    ToGoTail(goal, out, RowSpans(stride, r, row, rest), Xor(cur, prev));
    var start := RowStart(stride, r, row);
    XorSlice(cur, prev, start, start + r.width * 4);
  }

  method DeltaEncodeScalar(cur: seq<byte>, prev: seq<byte>, stride: nat, regions: seq<DamageRect>, output: seq<byte>)
    returns (r: seq<byte>, written: nat)
    requires |cur| == |prev| && Fit(SpansOf(stride, regions), |cur|)
    ensures r == output + Encode(cur, prev, stride, regions)
    ensures written == |Encode(cur, prev, stride, regions)|
  {
    hide ToGo, Xor, Encode;
    r := output;
    ghost var goal, d := output + Encode(cur, prev, stride, regions), Xor(cur, prev);
    ToGoStart(output, cur, prev, stride, regions);
    for k := 0 to |regions|
      invariant ToGo(goal, r, SpansFrom(stride, regions, k), d)
    {
      var rect := regions[k];
      ghost var rest := SpansFrom(stride, regions, k + 1);
      for row := 0 to rect.height
        invariant ToGo(goal, r, RowSpans(stride, rect, row, rest), d)
      {
        ToGoRow(goal, r, cur, prev, stride, rect, row, rest);
        var rowStart := RowStart(stride, rect, row);
        var rowEnd := rowStart + rect.width * 4;
        r := r + Xor(cur[rowStart..rowEnd], prev[rowStart..rowEnd]);
      }
    }
    ToGoEnd(goal, r, d);
    written := |r| - |output|;
  }

  /** Byte for byte the scalar encoder. */
  method DeltaEncodeSimd(cur: seq<byte>, prev: seq<byte>, stride: nat, regions: seq<DamageRect>, output: seq<byte>)
    returns (r: seq<byte>, written: nat)
    requires |cur| == |prev| && Fit(SpansOf(stride, regions), |cur|)
    ensures r == output + Encode(cur, prev, stride, regions)
    ensures written == |Encode(cur, prev, stride, regions)|
  {
    hide ToGo, Xor, Encode;
    r := output;
    ghost var goal, d := output + Encode(cur, prev, stride, regions), Xor(cur, prev);
    ToGoStart(output, cur, prev, stride, regions);
    for k := 0 to |regions|
      invariant ToGo(goal, r, SpansFrom(stride, regions, k), d)
    {
      var rect := regions[k];
      ghost var rest := SpansFrom(stride, regions, k + 1);
      for row := 0 to rect.height
        invariant ToGo(goal, r, RowSpans(stride, rect, row, rest), d)
      {
        ToGoRow(goal, r, cur, prev, stride, rect, row, rest);
        var rowStart := RowStart(stride, rect, row);
        var rowEnd := rowStart + rect.width * 4;
        r := XorIntoVecSimd(cur[rowStart..rowEnd], prev[rowStart..rowEnd], r);
      }
    }
    ToGoEnd(goal, r, d);
    written := |r| - |output|;
  }

  /** The per-region encoder of the parallel compressor. */
  method DeltaEncodeRegion(cur: seq<byte>, prev: seq<byte>, rect: DamageRect, stride: nat) returns (out: seq<byte>)
    requires |cur| == |prev| && Fit(SpansOf(stride, [rect]), |cur|)
    ensures out == Encode(cur, prev, stride, [rect])
  {
    hide ToGo, Xor, Encode;
    var rowBytes := rect.width * 4;
    out := [];
    ghost var goal, d := Encode(cur, prev, stride, [rect]), Xor(cur, prev);
    AppendEmpty(goal);
    ToGoStart([], cur, prev, stride, [rect]);
    assert SpansFrom(stride, [rect], 1) == Nil;
    for row := 0 to rect.height
      invariant ToGo(goal, out, RowSpans(stride, rect, row, Nil), d)
    {
      ToGoRow(goal, out, cur, prev, stride, rect, row, Nil);
      var rowStart := RowStart(stride, rect, row);
      var rowEnd := rowStart + rowBytes;
      out := out + Xor(cur[rowStart..rowEnd], prev[rowStart..rowEnd]);
    }
    ToGoEnd(goal, out, d);
  }

  // ----- One delta blob per region -----

  lemma EncodePrefix(cur: seq<byte>, prev: seq<byte>, stride: nat, rects: seq<DamageRect>, k: nat)
    requires |cur| == |prev| && k < |rects| && Fit(SpansOf(stride, rects), |cur|)
    ensures Fit(SpansOf(stride, rects[..k]), |cur|) && Fit(SpansOf(stride, [rects[k]]), |cur|)
    ensures Fit(SpansOf(stride, rects[..k + 1]), |cur|)
    ensures Encode(cur, prev, stride, rects[..k + 1])
            == Encode(cur, prev, stride, rects[..k]) + Encode(cur, prev, stride, [rects[k]])
  {
    assert rects == rects[..k + 1] + rects[k + 1..] && rects[..k + 1] == rects[..k] + [rects[k]];
    EncodeConcat(cur, prev, stride, rects[..k + 1], rects[k + 1..]);
    EncodeConcat(cur, prev, stride, rects[..k], [rects[k]]);
  }

  /** Every region alone stays inside a frame of `n` bytes. */
  predicate RegionsFit(stride: nat, rects: seq<DamageRect>, n: nat) {
    forall k :: 0 <= k < |rects| ==> Fit(SpansOf(stride, [rects[k]]), n)
  }

  lemma FitRegions(stride: nat, rects: seq<DamageRect>, n: nat)
    requires Fit(SpansOf(stride, rects), n)
    ensures RegionsFit(stride, rects, n)
  {
    forall k | 0 <= k < |rects| ensures Fit(SpansOf(stride, [rects[k]]), n) {
      EncodePrefix(Zeros(n), Zeros(n), stride, rects, k);
    }
  }

  /** The deltas of the regions, one by one. */
  function RegionDeltas(cur: seq<byte>, prev: seq<byte>, stride: nat, rects: seq<DamageRect>): (r: seq<seq<byte>>)
    requires |cur| == |prev| && RegionsFit(stride, rects, |cur|)
    ensures |r| == |rects|
    ensures forall k :: 0 <= k < |rects| ==> r[k] == Encode(cur, prev, stride, [rects[k]])
  {
    seq(|rects|, k requires 0 <= k < |rects| => Encode(cur, prev, stride, [rects[k]]))
  }

  /** Joined, the per-region deltas are the one delta of the whole region list. */
  lemma {:induction false} JoinedDeltas(cur: seq<byte>, prev: seq<byte>, stride: nat, rects: seq<DamageRect>, k: nat)
    requires |cur| == |prev| && k <= |rects| && Fit(SpansOf(stride, rects), |cur|) && RegionsFit(stride, rects, |cur|)
    ensures Fit(SpansOf(stride, rects[..k]), |cur|)
    ensures Join(RegionDeltas(cur, prev, stride, rects), k) == Encode(cur, prev, stride, rects[..k])
  {
    if k > 0 {
      JoinedDeltas(cur, prev, stride, rects, k - 1);
      EncodePrefix(cur, prev, stride, rects, k - 1);
    }
  }

  /** The delta pass of the parallel compressor. */
  method DeltasOfRegions(cur: seq<byte>, prev: seq<byte>, regions: seq<DamageRect>, stride: nat)
    returns (deltas: seq<seq<byte>>)
    requires |cur| == |prev| && RegionsFit(stride, regions, |cur|)
    ensures deltas == RegionDeltas(cur, prev, stride, regions)
  {
    deltas := [];
    for k := 0 to |regions|
      invariant |deltas| == k
      invariant forall j :: 0 <= j < k ==> deltas[j] == Encode(cur, prev, stride, [regions[j]])
    {
      var delta := DeltaEncodeRegion(cur, prev, regions[k], stride);
      deltas := deltas + [delta];
    }
  }

  // ----- Decoding in place -----

  /** One row: `output[rowStart + i] = previous[rowStart + i] ^ delta[offset + i]`. */
  method DecodeRow(delta: seq<byte>, offset: nat, previous: seq<byte>, rowStart: nat, rowLen: nat, output: array<byte>)
    requires output.Length == |previous| && (rowLen == 0 || rowStart + rowLen <= |previous|) && offset + rowLen <= |delta|
    modifies output
    ensures output[..] == if rowLen == 0 then old(output[..])
                          else Write(old(output[..]), rowStart, Line(delta, offset, previous, rowStart, rowLen))
  {
    for i := 0 to rowLen
      invariant forall j :: rowStart <= j < rowStart + i ==> output[j] == previous[j] ^ delta[offset + (j - rowStart)]
      invariant forall j :: 0 <= j < output.Length && !(rowStart <= j < rowStart + i) ==> output[j] == old(output[j])
    {
      output[rowStart + i] := previous[rowStart + i] ^ delta[offset + i];
    }
    if rowLen > 0 {
      WholeLine(delta, offset, previous, rowStart, rowLen, old(output[..]), output[..]);
    }
  }

  lemma WholeLine(delta: seq<byte>, offset: nat, previous: seq<byte>, start: nat, len: nat, before: seq<byte>,
                  after: seq<byte>)
    requires |before| == |after| == |previous| && start + len <= |previous| && offset + len <= |delta|
    requires forall j :: start <= j < start + len ==> after[j] == previous[j] ^ delta[offset + (j - start)]
    requires forall j :: 0 <= j < |after| && !(start <= j < start + len) ==> after[j] == before[j]
    ensures after == Write(before, start, Line(delta, offset, previous, start, len))
  {
    hide Write;
    var line := Line(delta, offset, previous, start, len);
    forall j | 0 <= j < |after| ensures after[j] == Write(before, start, line)[j] {
      WriteAt(before, start, line, j);
    }
  }

  /** All rows of one rectangle; returns where its bytes of the delta end. */
  method DecodeRect(delta: seq<byte>, from: nat, previous: seq<byte>, stride: nat, rect: DamageRect,
                    output: array<byte>, ghost rest: Spans) returns (offset: nat)
    requires output.Length == |previous|
    requires var spans := RowSpans(stride, rect, 0, rest); Reach(spans, |previous|) && from + Total(spans) <= |delta|
    modifies output
    ensures Reach(rest, |previous|) && offset + Total(rest) <= |delta|
    ensures Scatter(RowSpans(stride, rect, 0, rest), delta, from, previous, old(output[..]))
            == Scatter(rest, delta, offset, previous, output[..])
  {
    hide Write, Line, RowStart;
    offset := from;
    ghost var goal := Scatter(RowSpans(stride, rect, 0, rest), delta, from, previous, output[..]);
    for row := 0 to rect.height
      invariant Reach(RowSpans(stride, rect, row, rest), |previous|)
      invariant offset + Total(RowSpans(stride, rect, row, rest)) <= |delta|
      invariant goal == Scatter(RowSpans(stride, rect, row, rest), delta, offset, previous, output[..])
    {
      var rowStart := RowStart(stride, rect, row);
      var rowLen := rect.width * 4;
      ghost var next := RowSpans(stride, rect, row + 1, rest);
      assert RowSpans(stride, rect, row, rest) == Cons(rowStart, rowLen, next);
      DecodeRow(delta, offset, previous, rowStart, rowLen, output);
      offset := offset + rowLen;
    }
  }

  method CopyFromSlice(output: array<byte>, src: seq<byte>)
    requires output.Length == |src|
    modifies output
    ensures output[..] == src
  {
    forall i | 0 <= i < output.Length {
      output[i] := src[i];
    }
  }

  method DeltaDecode(delta: seq<byte>, previous: seq<byte>, stride: nat, regions: seq<DamageRect>, output: array<byte>)
    requires output.Length == |previous|
    requires Reach(SpansOf(stride, regions), |previous|) && Total(SpansOf(stride, regions)) <= |delta|
    modifies output
    ensures output[..] == Decode(delta, previous, stride, regions)
  {
    CopyFromSlice(output, previous);
    ghost var goal := Decode(delta, previous, stride, regions);
    var offset: nat := 0;
    for k := 0 to |regions|
      invariant Reach(SpansFrom(stride, regions, k), |previous|)
      invariant offset + Total(SpansFrom(stride, regions, k)) <= |delta|
      invariant goal == Scatter(SpansFrom(stride, regions, k), delta, offset, previous, output[..])
    {
      offset := DecodeRect(delta, offset, previous, stride, regions[k], output, SpansFrom(stride, regions, k + 1));
    }
  }
}
