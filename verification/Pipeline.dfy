/** Encode, compress, stitch - and back. The compressor is any lossless codec. */
module Pipeline {
  import opened Bytes
  import opened Delta
  import opened FramePayload
  import opened DeltaCodec

  datatype Codec = Codec(compress: seq<byte> -> seq<byte>, decompress: seq<byte> -> Option<seq<byte>>)

  ghost predicate Lossless(codec: Codec) {
    forall x :: codec.decompress(codec.compress(x)) == Some(x)
  }

  /** The `None` compressor: bytes go on the wire as they are. */
  function NoCompression(): Codec {
    Codec(x => x, x => Some(x))
  }

  datatype DecodeError = CodecFailed | OutOfBounds

  // ----- Compressing -----

  function Stitch(c: CompressedFrame, blob: seq<byte>): CompressedFrame {
    CompressedFrame(c.data + blob, c.regionOffsets + [|c.data|], c.regionSizes + [|blob|])
  }

  /** The first `k` deltas, each compressed on its own, laid back to back. */
  function CompressUpTo(codec: Codec, deltas: seq<seq<byte>>, k: nat): (c: CompressedFrame)
    requires k <= |deltas|
    ensures |c.regionOffsets| == |c.regionSizes| == k
  {
    if k == 0 then CompressedFrame([], [], [])
    else Stitch(CompressUpTo(codec, deltas, k - 1), codec.compress(deltas[k - 1]))
  }

  function Compress(codec: Codec, cur: seq<byte>, prev: seq<byte>, stride: nat, rects: seq<DamageRect>)
    : (c: CompressedFrame)
    requires |cur| == |prev| && RegionsFit(stride, rects, |cur|)
    ensures |c.regionOffsets| == |c.regionSizes| == |rects|
  {
    CompressUpTo(codec, RegionDeltas(cur, prev, stride, rects), |rects|)
  }

  lemma SliceOfThree(a: seq<byte>, b: seq<byte>, c: seq<byte>)
    ensures |a + b + c| == |a| + |b| + |c| && (a + b + c)[|a|..|a| + |b|] == b
  {}

  /** Region `k` starts in the whole delta where the regions before it end. */
  lemma DeltaSlice(cur: seq<byte>, prev: seq<byte>, stride: nat, rects: seq<DamageRect>, k: nat, offset: nat)
    requires |cur| == |prev| && Fit(SpansOf(stride, rects), |cur|) && k < |rects|
    requires Fit(SpansOf(stride, rects[..k]), |cur|) && offset == |Encode(cur, prev, stride, rects[..k])|
    ensures Fit(SpansOf(stride, [rects[k]]), |cur|) && Fit(SpansOf(stride, rects[..k + 1]), |cur|)
    ensures offset + RegionLen(rects[k]) == |Encode(cur, prev, stride, rects[..k + 1])| <= |Encode(cur, prev, stride, rects)|
    ensures Encode(cur, prev, stride, rects)[offset..offset + RegionLen(rects[k])] == Encode(cur, prev, stride, [rects[k]])
  {
    EncodePrefix(cur, prev, stride, rects, k);
    EncodeOneLength(cur, prev, stride, rects[k]);
    assert rects == rects[..k + 1] + rects[k + 1..];
    EncodeConcat(cur, prev, stride, rects[..k + 1], rects[k + 1..]);
    SliceOfThree(Encode(cur, prev, stride, rects[..k]), Encode(cur, prev, stride, [rects[k]]),
                 Encode(cur, prev, stride, rects[k + 1..]));
  }

  /** Cuts the scratch buffer at the running sums of the region lengths. */
  method SliceRegions(scratch: seq<byte>, rects: seq<DamageRect>,
                      ghost cur: seq<byte>, ghost prev: seq<byte>, ghost stride: nat)
    returns (slices: seq<seq<byte>>)
    requires |cur| == |prev| && Fit(SpansOf(stride, rects), |cur|) && RegionsFit(stride, rects, |cur|)
    requires scratch == Encode(cur, prev, stride, rects)
    ensures slices == RegionDeltas(cur, prev, stride, rects)
  {
    slices := [];
    var offset := 0;
    for k := 0 to |rects|
      invariant |slices| == k && Fit(SpansOf(stride, rects[..k]), |cur|)
      invariant offset == |Encode(cur, prev, stride, rects[..k])|
      invariant forall j :: 0 <= j < k ==> slices[j] == Encode(cur, prev, stride, [rects[j]])
    {
      DeltaSlice(cur, prev, stride, rects, k, offset);
      var regionLen := RegionLen(rects[k]);
      slices := slices + [scratch[offset..offset + regionLen]];
      offset := offset + regionLen;
    }
  }

  /** Delta-encode all regions into one scratch buffer, cut it at the region lengths, compress
      every piece, and stitch the blobs together. */
  method CompressFrameInto(codec: Codec, cur: seq<byte>, prev: seq<byte>, stride: nat, rects: seq<DamageRect>)
    returns (out: CompressedFrame, originalBytes: nat)
    requires |cur| == |prev| && Fit(SpansOf(stride, rects), |cur|)
    ensures RegionsFit(stride, rects, |cur|) && out == Compress(codec, cur, prev, stride, rects)
    ensures originalBytes == |Encode(cur, prev, stride, rects)|
  {
    FitRegions(stride, rects, |cur|);
    var scratch;
    scratch, originalBytes := DeltaEncodeSimd(cur, prev, stride, rects, []);
    AppendEmpty(Encode(cur, prev, stride, rects));
    var slices := SliceRegions(scratch, rects, cur, prev, stride);
    var blobs := seq(|slices|, k requires 0 <= k < |slices| => codec.compress(slices[k]));
    out := CompressedFrame([], [], []);
    for k := 0 to |rects|
      invariant out == CompressUpTo(codec, slices, k)
    {
      out := CompressedFrame(out.data + blobs[k], out.regionOffsets + [|out.data|], out.regionSizes + [|blobs[k]|]);
    }
  }

  lemma StitchTiled(c: CompressedFrame, blob: seq<byte>)
    requires Tiled(c) && Sum(c.regionSizes) == |c.data|
    ensures var d := Stitch(c, blob);
            Tiled(d) && Sum(d.regionSizes) == |d.data|
  {
    var d := Stitch(c, blob);
    assert d.regionSizes[..|c.regionSizes|] == c.regionSizes;
    forall k | 0 <= k < |d.regionSizes| ensures d.regionOffsets[k] == Sum(d.regionSizes[..k]) {
      if k < |c.regionSizes| {
        assert d.regionSizes[..k] == c.regionSizes[..k];
      }
    }
  }

  /** Offsets are prefix sums of the sizes and the blobs fill `data` exactly. */
  lemma {:induction false} CompressTiled(codec: Codec, deltas: seq<seq<byte>>, k: nat)
    requires k <= |deltas|
    ensures var c := CompressUpTo(codec, deltas, k);
            Tiled(c) && Sum(c.regionSizes) == |c.data|
  {
    if k > 0 {
      CompressTiled(codec, deltas, k - 1);
      StitchTiled(CompressUpTo(codec, deltas, k - 1), codec.compress(deltas[k - 1]));
    }
  }

  function BlobAt(c: CompressedFrame, k: nat): seq<byte>
    requires Tiled(c) && k < |c.regionSizes|
  {
    TiledInside(c, k);
    c.data[c.regionOffsets[k]..c.regionOffsets[k] + c.regionSizes[k]]
  }

  lemma StitchBlobs(c: CompressedFrame, blob: seq<byte>, k: nat)
    requires Tiled(c) && Sum(c.regionSizes) == |c.data| && k <= |c.regionSizes|
    ensures Tiled(Stitch(c, blob))
    ensures BlobAt(Stitch(c, blob), k) == if k < |c.regionSizes| then BlobAt(c, k) else blob
  {
    StitchTiled(c, blob);
    if k < |c.regionSizes| {
      TiledInside(c, k);
    }
  }

  lemma {:induction false} CompressBlob(codec: Codec, deltas: seq<seq<byte>>, n: nat, k: nat)
    requires k < n <= |deltas| && Tiled(CompressUpTo(codec, deltas, n))
    ensures BlobAt(CompressUpTo(codec, deltas, n), k) == codec.compress(deltas[k])
    decreases n
  {
    CompressTiled(codec, deltas, n - 1);
    StitchBlobs(CompressUpTo(codec, deltas, n - 1), codec.compress(deltas[n - 1]), k);
    if k < n - 1 {
      CompressBlob(codec, deltas, n - 1, k);
    }
  }

  /** The blob of region `k`, by its place in the data, is the compressed delta of that region alone. */
  lemma BlobIsCompressed(codec: Codec, cur: seq<byte>, prev: seq<byte>, stride: nat, rects: seq<DamageRect>, k: nat)
    requires |cur| == |prev| && RegionsFit(stride, rects, |cur|) && k < |rects|
    ensures Fit(SpansOf(stride, [rects[k]]), |cur|)
    ensures var c := Compress(codec, cur, prev, stride, rects);
            var start, size := c.regionOffsets[k], c.regionSizes[k];
            && start + size <= |c.data|
            && c.data[start..start + size] == codec.compress(Encode(cur, prev, stride, [rects[k]]))
  {
    var deltas := RegionDeltas(cur, prev, stride, rects);
    CompressTiled(codec, deltas, |rects|);
    CompressBlob(codec, deltas, |rects|, k);
    TiledInside(Compress(codec, cur, prev, stride, rects), k);
  }

  // ----- Decompressing -----

  /** The decompressed deltas of the first `k` regions, joined; nothing if one of them fails. */
  function DecodedUpTo(codec: Codec, c: CompressedFrame, k: nat): Option<seq<byte>>
    requires Tiled(c) && k <= |c.regionSizes|
  {
    if k == 0 then Some([])
    else
      match DecodedUpTo(codec, c, k - 1)
      case None => None
      case Some(before) =>
        match codec.decompress(BlobAt(c, k - 1))
        case None => None
        case Some(d) => Some(before + d)
  }

  function Decompress(codec: Codec, c: CompressedFrame, prev: seq<byte>, stride: nat, rects: seq<DamageRect>)
    : Result<seq<byte>, DecodeError>
    requires Tiled(c) && |rects| == |c.regionSizes|
  {
    match DecodedUpTo(codec, c, |rects|)
    case None => Err(CodecFailed)
    case Some(delta) =>
      var spans := SpansOf(stride, rects);
      if Reach(spans, |prev|) && Total(spans) <= |delta| then Ok(Decode(delta, prev, stride, rects))
      else Err(OutOfBounds)
  }

  lemma {:induction false} FailureStays(codec: Codec, c: CompressedFrame, j: nat, k: nat)
    requires Tiled(c) && j <= k <= |c.regionSizes| && DecodedUpTo(codec, c, j).None?
    ensures DecodedUpTo(codec, c, k).None?
    decreases k
  {
    if j < k {
      FailureStays(codec, c, j, k - 1);
    }
  }

  /** The blob of some region does not decompress. */
  predicate SomeBlobFails(codec: Codec, c: CompressedFrame, k: nat)
    requires Tiled(c) && k <= |c.regionSizes|
  {
    exists j :: 0 <= j < k && codec.decompress(BlobAt(c, j)).None?
  }

  /** How many bytes the blobs of the first `k` regions decompress to. */
  function DecodedLength(codec: Codec, c: CompressedFrame, k: nat): nat
    requires Tiled(c) && k <= |c.regionSizes|
  {
    if k == 0 then 0
    else
      DecodedLength(codec, c, k - 1) +
      match codec.decompress(BlobAt(c, k - 1))
      case None => 0
      case Some(d) => |d|
  }

  lemma {:induction false} DecodedExactly(codec: Codec, c: CompressedFrame, k: nat)
    requires Tiled(c) && k <= |c.regionSizes|
    ensures DecodedUpTo(codec, c, k).None? <==> SomeBlobFails(codec, c, k)
    ensures DecodedUpTo(codec, c, k).Some? ==> |DecodedUpTo(codec, c, k).value| == DecodedLength(codec, c, k)
  {
    if k > 0 {
      DecodedExactly(codec, c, k - 1);
      if SomeBlobFails(codec, c, k) && codec.decompress(BlobAt(c, k - 1)).Some? {
        var j :| 0 <= j < k && codec.decompress(BlobAt(c, j)).None?;
        assert j < k - 1;
      }
    }
  }

  /** Decompression fails exactly if a blob does; otherwise the decoder runs out of bounds exactly if a
      row of some rectangle reaches outside the base or the blobs are too short for the rectangles. */
  lemma DecompressExactly(codec: Codec, c: CompressedFrame, prev: seq<byte>, stride: nat, rects: seq<DamageRect>)
    requires Tiled(c) && |rects| == |c.regionSizes|
    ensures Decompress(codec, c, prev, stride, rects) == Err(CodecFailed) <==> SomeBlobFails(codec, c, |rects|)
    ensures Decompress(codec, c, prev, stride, rects) == Err(OutOfBounds)
       <==> !SomeBlobFails(codec, c, |rects|)
            && (!Reach(SpansOf(stride, rects), |prev|)
                || DecodedLength(codec, c, |rects|) < Total(SpansOf(stride, rects)))
    ensures Decompress(codec, c, prev, stride, rects).Ok? ==>
              var r := Decompress(codec, c, prev, stride, rects).value;
              |r| == |prev| && forall i :: 0 <= i < |prev| && !Covered(SpansOf(stride, rects), i) ==> r[i] == prev[i]
  {
    hide Scatter, SpansOf;
    DecodedExactly(codec, c, |rects|);
    if Decompress(codec, c, prev, stride, rects).Ok? {
      var delta := DecodedUpTo(codec, c, |rects|).value;
      forall i | 0 <= i < |prev| && !Covered(SpansOf(stride, rects), i)
        ensures Decode(delta, prev, stride, rects)[i] == prev[i]
      {
        ScatterOutside(SpansOf(stride, rects), delta, 0, prev, prev, i);
      }
    }
  }

  method JoinDecoded(codec: Codec, c: CompressedFrame, n: nat) returns (r: Option<seq<byte>>)
    requires Tiled(c) && n == |c.regionSizes|
    ensures r == DecodedUpTo(codec, c, n)
  {
    var decoded: seq<Option<seq<byte>>> := [];
    for k := 0 to n
      invariant |decoded| == k && forall j :: 0 <= j < k ==> decoded[j] == codec.decompress(BlobAt(c, j))
    {
      TiledInside(c, k);
      var start := c.regionOffsets[k];
      var end := start + c.regionSizes[k];
      decoded := decoded + [codec.decompress(c.data[start..end])];
    }
    var scratch: seq<byte> := [];
    for k := 0 to n
      invariant DecodedUpTo(codec, c, k) == Some(scratch)
    {
      if decoded[k].None? {
        FailureStays(codec, c, k + 1, n);
        return None;
      }
      scratch := scratch + decoded[k].value;
    }
    return Some(scratch);
  }

  /** `OutOfBounds` stands for the index panic of the in-place decoder. */
  method DecompressFrameInto(codec: Codec, c: CompressedFrame, prev: seq<byte>, stride: nat, rects: seq<DamageRect>)
    returns (r: Result<seq<byte>, DecodeError>)
    requires Tiled(c) && |rects| == |c.regionSizes|
    ensures r == Decompress(codec, c, prev, stride, rects)
  {
    var output := new byte[|prev|](_ => 0);
    var joined := JoinDecoded(codec, c, |rects|);
    if joined.None? {
      return Err(CodecFailed);
    }
    var delta := joined.value;
    var spans := SpansOf(stride, rects);
    if !Reach(spans, |prev|) || Total(spans) > |delta| {
      return Err(OutOfBounds);
    }
    DeltaDecode(delta, prev, stride, rects, output);
    return Ok(output[..]);
  }

  // ----- Round trip -----

  lemma {:induction false} DecodedOfCompressed(codec: Codec, deltas: seq<seq<byte>>, k: nat)
    requires Lossless(codec) && k <= |deltas| && Tiled(CompressUpTo(codec, deltas, |deltas|))
    ensures DecodedUpTo(codec, CompressUpTo(codec, deltas, |deltas|), k) == Some(Join(deltas, k))
  {
    if k > 0 {
      DecodedOfCompressed(codec, deltas, k - 1);
      CompressBlob(codec, deltas, |deltas|, k - 1);
      assert codec.decompress(codec.compress(deltas[k - 1])) == Some(deltas[k - 1]);
    }
  }

  /** With a lossless codec, compressing and decompressing over any base is delta-decoding the
      delta over that base; in particular it never fails. */
  lemma CompressRoundTrip(codec: Codec, cur: seq<byte>, prev: seq<byte>, base: seq<byte>,
                          stride: nat, rects: seq<DamageRect>)
    requires Lossless(codec) && |cur| == |prev| == |base| && Fit(SpansOf(stride, rects), |cur|)
    ensures RegionsFit(stride, rects, |cur|)
    ensures var c := Compress(codec, cur, prev, stride, rects);
            && Tiled(c) && Sum(c.regionSizes) == |c.data|
            && Decompress(codec, c, base, stride, rects) == Ok(Decode(Encode(cur, prev, stride, rects), base, stride, rects))
  {
    FitRegions(stride, rects, |cur|);
    var deltas := RegionDeltas(cur, prev, stride, rects);
    CompressTiled(codec, deltas, |rects|);
    DecodedOfCompressed(codec, deltas, |rects|);
    JoinedDeltas(cur, prev, stride, rects, |rects|);
    assert rects[..|rects|] == rects;
  }

  /** The sizes of all blobs of regions up to `n` bytes fit the 32-bit fields of the table. */
  ghost predicate BlobsFit(codec: Codec, n: nat) {
    forall x :: |x| <= n ==> |codec.compress(x)| < 0x1_0000_0000
  }

  lemma {:induction false} SizesFit(codec: Codec, deltas: seq<seq<byte>>, n: nat, k: nat)
    requires k <= |deltas| && BlobsFit(codec, n) && forall j :: 0 <= j < |deltas| ==> |deltas[j]| <= n
    ensures forall j :: 0 <= j < k ==> CompressUpTo(codec, deltas, k).regionSizes[j] < 0x1_0000_0000
  {
    if k > 0 {
      SizesFit(codec, deltas, n, k - 1);
      assert |codec.compress(deltas[k - 1])| < 0x1_0000_0000;
    }
  }

  lemma CompressEncodable(codec: Codec, cur: seq<byte>, prev: seq<byte>, stride: nat, rects: seq<DamageRect>, n: nat)
    requires |cur| == |prev| && RegionsFit(stride, rects, |cur|) && |rects| < 0x1_0000_0000
    requires BlobsFit(codec, n) && forall j :: 0 <= j < |rects| ==> RegionLen(rects[j]) <= n
    ensures Encodable(rects, Compress(codec, cur, prev, stride, rects))
  {
    var deltas := RegionDeltas(cur, prev, stride, rects);
    forall j | 0 <= j < |deltas| ensures |deltas[j]| <= n {
      EncodeOneLength(cur, prev, stride, rects[j]);
    }
    SizesFit(codec, deltas, n, |rects|);
    CompressTiled(codec, deltas, |rects|);
  }

  /** The whole trip of a payload: compress, stitch, serialize, deserialize, decompress. The
      dimensions, rectangles, sizes and offsets come back, and over the encoder's own base the
      decoder rebuilds `cur` inside the regions and `prev` outside. */
  lemma PayloadRoundTrip(codec: Codec, width: u32, height: u32, stride: u32, cur: seq<byte>, prev: seq<byte>,
                         rects: seq<DamageRect>, n: nat)
    requires Lossless(codec) && |cur| == |prev| && Fit(SpansOf(stride, rects), |cur|) && |rects| < 0x1_0000_0000
    requires BlobsFit(codec, n) && forall j :: 0 <= j < |rects| ==> RegionLen(rects[j]) <= n
    ensures RegionsFit(stride, rects, |cur|)
    ensures var c := Compress(codec, cur, prev, stride, rects);
            && Deserialize(Serialize(width, height, stride, rects, c)) == Ok(Parsed(width, height, stride, rects, c))
            && Tiled(c) && Sum(c.regionSizes) == |c.data|
            && var r := Decompress(codec, c, prev, stride, rects);
            && r.Ok? && |r.value| == |cur|
            && forall i :: 0 <= i < |cur| ==> r.value[i] == if Covered(SpansOf(stride, rects), i) then cur[i] else prev[i]
  {
    CompressRoundTrip(codec, cur, prev, prev, stride, rects);
    CompressEncodable(codec, cur, prev, stride, rects, n);
    SerializeRoundTrip(width, height, stride, rects, Compress(codec, cur, prev, stride, rects));
    DecodeOwnBase(cur, prev, stride, rects);
  }
}
