/** The frame payload on the wire: dimensions, region table, compressed blobs. */
module FramePayload {
  import opened Bytes
  import opened Delta

  const META_SIZE := 16
  const REGION_SIZE := 20

  /** Concatenated region blobs with the place of each in `data`; timing statistics are left out. */
  datatype CompressedFrame = CompressedFrame(data: seq<byte>, regionOffsets: seq<nat>, regionSizes: seq<nat>)

  datatype FrameMeta = FrameMeta(width: u32, height: u32, stride: u32, numRegions: u32)

  datatype WireRegion = WireRegion(rect: DamageRect, compressedSize: u32)

  /** What the deserializer returns on success. */
  datatype Parsed = Parsed(width: u32, height: u32, stride: u32, regions: seq<DamageRect>, compressed: CompressedFrame)

  datatype PayloadError = TooShortForMeta | TooShortForRegions | TooShortForData

  // ----- Fixed records -----

  function MetaBytes(m: FrameMeta): (r: seq<byte>)
    ensures |r| == META_SIZE
  {
    ToLE(m.width, 4) + ToLE(m.height, 4) + ToLE(m.stride, 4) + ToLE(m.numRegions, 4)
  }

  function U32Of(b: seq<byte>): u32
    requires |b| == 4
  {
    ToFromLE(b); Pow256Widths();
    FromLE(b)
  }

  function ParseMeta(b: seq<byte>): FrameMeta
    requires |b| == META_SIZE
  {
    FrameMeta(U32Of(b[0..4]), U32Of(b[4..8]), U32Of(b[8..12]), U32Of(b[12..16]))
  }

  function RegionBytes(w: WireRegion): (r: seq<byte>)
    ensures |r| == REGION_SIZE
  {
    ToLE(w.rect.x, 4) + ToLE(w.rect.y, 4) + ToLE(w.rect.width, 4) + ToLE(w.rect.height, 4) + ToLE(w.compressedSize, 4)
  }

  function ParseRegion(b: seq<byte>): WireRegion
    requires |b| == REGION_SIZE
  {
    WireRegion(DamageRect(U32Of(b[0..4]), U32Of(b[4..8]), U32Of(b[8..12]), U32Of(b[12..16])), U32Of(b[16..20]))
  }

  lemma U32RoundTrip(n: u32)
    ensures U32Of(ToLE(n, 4)) == n
  {
    Pow256Widths();
    FromToLE(n, 4);
  }

  lemma U32BytesRoundTrip(b: seq<byte>)
    requires |b| == 4
    ensures ToLE(U32Of(b), 4) == b
  {
    ToFromLE(b);
  }

  lemma WordsOf(a: seq<byte>, b: seq<byte>, c: seq<byte>, d: seq<byte>, e: seq<byte>)
    requires |a| == |b| == |c| == |d| == 4
    ensures var s := a + b + c + d + e;
            s[0..4] == a && s[4..8] == b && s[8..12] == c && s[12..16] == d && s[16..16 + |e|] == e
  {}

  lemma MetaRoundTrip(m: FrameMeta)
    ensures ParseMeta(MetaBytes(m)) == m
  {
    WordsOf(ToLE(m.width, 4), ToLE(m.height, 4), ToLE(m.stride, 4), ToLE(m.numRegions, 4), []);
    AppendEmpty(MetaBytes(m));
    U32RoundTrip(m.width); U32RoundTrip(m.height); U32RoundTrip(m.stride); U32RoundTrip(m.numRegions);
  }

  lemma FourWords(b: seq<byte>)
    requires |b| == 16
    ensures b[0..4] + b[4..8] + b[8..12] + b[12..16] == b
  {}

  lemma FiveWords(b: seq<byte>)
    requires |b| == 20
    ensures b[0..4] + b[4..8] + b[8..12] + b[12..16] + b[16..20] == b
  {}

  lemma MetaBytesRoundTrip(b: seq<byte>)
    requires |b| == META_SIZE
    ensures MetaBytes(ParseMeta(b)) == b
  {
    U32BytesRoundTrip(b[0..4]); U32BytesRoundTrip(b[4..8]);
    U32BytesRoundTrip(b[8..12]); U32BytesRoundTrip(b[12..16]);
    FourWords(b);
  }

  lemma RegionRoundTrip(w: WireRegion)
    ensures ParseRegion(RegionBytes(w)) == w
  {
    WordsOf(ToLE(w.rect.x, 4), ToLE(w.rect.y, 4), ToLE(w.rect.width, 4), ToLE(w.rect.height, 4), ToLE(w.compressedSize, 4));
    U32RoundTrip(w.rect.x); U32RoundTrip(w.rect.y); U32RoundTrip(w.rect.width);
    U32RoundTrip(w.rect.height); U32RoundTrip(w.compressedSize);
  }

  lemma RegionBytesRoundTrip(b: seq<byte>)
    requires |b| == REGION_SIZE
    ensures RegionBytes(ParseRegion(b)) == b
  {
    U32BytesRoundTrip(b[0..4]); U32BytesRoundTrip(b[4..8]); U32BytesRoundTrip(b[8..12]);
    U32BytesRoundTrip(b[12..16]); U32BytesRoundTrip(b[16..20]);
    FiveWords(b);
  }

  // ----- The layout on the wire -----

  /** `b` holds the frame record at byte `i`: four 32-bit integers, least significant byte first. */
  predicate MetaAt(m: FrameMeta, b: seq<byte>, i: nat)
    requires i + 16 <= |b|
  {
    m.width == U32At(b, i) && m.height == U32At(b, i + 4) && m.stride == U32At(b, i + 8) && m.numRegions == U32At(b, i + 12)
  }

  /** `b` holds the region record at byte `i`: the rectangle and the size of its blob. */
  predicate RegionAt(w: WireRegion, b: seq<byte>, i: nat)
    requires i + 20 <= |b|
  {
    && w.rect.x == U32At(b, i) && w.rect.y == U32At(b, i + 4)
    && w.rect.width == U32At(b, i + 8) && w.rect.height == U32At(b, i + 12)
    && w.compressedSize == U32At(b, i + 16)
  }

  lemma MetaLayout(b: seq<byte>, m: FrameMeta)
    requires |b| == 16
    ensures MetaAt(ParseMeta(b), b, 0) && MetaAt(m, MetaBytes(m), 0)
  {
    hide U32At;
    MetaRoundTrip(m);
    ParseMetaLayout(b);
    ParseMetaLayout(MetaBytes(m));
  }

  lemma ParseMetaLayout(b: seq<byte>)
    requires |b| == 16
    ensures MetaAt(ParseMeta(b), b, 0)
  {
    hide U32At, FromLE;
    FromLE32(b, 0); FromLE32(b, 4); FromLE32(b, 8); FromLE32(b, 12);
  }

  lemma RegionLayout(b: seq<byte>, w: WireRegion)
    requires |b| == 20
    ensures RegionAt(ParseRegion(b), b, 0) && RegionAt(w, RegionBytes(w), 0)
  {
    hide U32At;
    RegionRoundTrip(w);
    ParseRegionLayout(b);
    ParseRegionLayout(RegionBytes(w));
  }

  lemma ParseRegionLayout(b: seq<byte>)
    requires |b| == 20
    ensures RegionAt(ParseRegion(b), b, 0)
  {
    hide U32At, FromLE;
    FromLE32(b, 0); FromLE32(b, 4); FromLE32(b, 8); FromLE32(b, 12); FromLE32(b, 16);
  }

  // ----- Serializing -----

  function EntryFor(regions: seq<DamageRect>, sizes: seq<nat>, k: nat): WireRegion
    requires k < |regions| <= |sizes|
  {
    WireRegion(regions[k], sizes[k] % 0x1_0000_0000)
  }

  function Table(regions: seq<DamageRect>, sizes: seq<nat>, k: nat): seq<byte>
    requires |regions| <= |sizes|
    decreases |regions| - k
  {
    if k >= |regions| then []
    else RegionBytes(EntryFor(regions, sizes, k)) + Table(regions, sizes, k + 1)
  }

  function Serialize(width: u32, height: u32, stride: u32, regions: seq<DamageRect>, c: CompressedFrame): seq<byte>
    requires |regions| <= |c.regionSizes|
  {
    MetaBytes(FrameMeta(width, height, stride, |regions| % 0x1_0000_0000)) + Table(regions, c.regionSizes, 0) + c.data
  }

  method SerializeFramePayload(width: u32, height: u32, stride: u32, regions: seq<DamageRect>, c: CompressedFrame)
    returns (payload: seq<byte>)
    requires |regions| <= |c.regionSizes|
    ensures payload == Serialize(width, height, stride, regions, c)
  {
    var meta := FrameMeta(width, height, stride, |regions| % 0x1_0000_0000);
    payload := MetaBytes(meta);
    ghost var goal := payload + Table(regions, c.regionSizes, 0);
    for i := 0 to |regions|
      invariant goal == payload + Table(regions, c.regionSizes, i)
    {
      var wr := WireRegion(regions[i], c.regionSizes[i] % 0x1_0000_0000);
      AppendAssoc(payload, RegionBytes(wr), Table(regions, c.regionSizes, i + 1));
      payload := payload + RegionBytes(wr);
    }
    AppendEmpty(payload);
    payload := payload + c.data;
  }

  // ----- Deserializing -----

  function EntryAt(payload: seq<byte>, k: nat): WireRegion
    requires META_SIZE + REGION_SIZE * (k + 1) <= |payload|
  {
    var off := META_SIZE + REGION_SIZE * k;
    ParseRegion(payload[off..off + REGION_SIZE])
  }

  /** The first `n` entries of the region table, with the running data offset. */
  datatype Entries = Entries(regions: seq<DamageRect>, offsets: seq<nat>, sizes: seq<nat>, end: nat)

  function Extend(e: Entries, w: WireRegion): Entries {
    Entries(e.regions + [w.rect], e.offsets + [e.end], e.sizes + [w.compressedSize], e.end + w.compressedSize)
  }

  function EntriesUpTo(payload: seq<byte>, n: nat): (e: Entries)
    requires META_SIZE + REGION_SIZE * n <= |payload|
    ensures |e.regions| == |e.offsets| == |e.sizes| == n
  {
    if n == 0 then Entries([], [], [], 0)
    else Extend(EntriesUpTo(payload, n - 1), EntryAt(payload, n - 1))
  }

  function Deserialize(payload: seq<byte>): Result<Parsed, PayloadError> {
    if |payload| < META_SIZE then Err(TooShortForMeta)
    else
      var meta := ParseMeta(payload[..META_SIZE]);
      var regionsEnd := META_SIZE + REGION_SIZE * meta.numRegions;
      if |payload| < regionsEnd then Err(TooShortForRegions)
      else
        var e, data := EntriesUpTo(payload, meta.numRegions), payload[regionsEnd..];
        if |data| < e.end then Err(TooShortForData)
        else Ok(Parsed(meta.width, meta.height, meta.stride, e.regions, CompressedFrame(data, e.offsets, e.sizes)))
  }

  method DeserializeFramePayload(payload: seq<byte>) returns (r: Result<Parsed, PayloadError>)
    ensures r == Deserialize(payload)
  {
    if |payload| < META_SIZE {
      return Err(TooShortForMeta);
    }
    var meta := ParseMeta(payload[..META_SIZE]);
    var numRegions := meta.numRegions;
    var regionsEnd := META_SIZE + REGION_SIZE * numRegions;
    if |payload| < regionsEnd {
      return Err(TooShortForRegions);
    }
    var regions, offsets, sizes, dataOffset: nat := [], [], [], 0;
    for i := 0 to numRegions
      invariant Entries(regions, offsets, sizes, dataOffset) == EntriesUpTo(payload, i)
    {
      var wr := EntryAt(payload, i);
      assert EntriesUpTo(payload, i + 1) == Extend(EntriesUpTo(payload, i), wr);
      regions := regions + [wr.rect];
      offsets := offsets + [dataOffset];
      sizes := sizes + [wr.compressedSize];
      dataOffset := dataOffset + wr.compressedSize;
    }
    var data := payload[regionsEnd..];
    if |data| < dataOffset {
      return Err(TooShortForData);
    }
    return Ok(Parsed(meta.width, meta.height, meta.stride, regions, CompressedFrame(data, offsets, sizes)));
  }

  // ----- Offsets are the prefix sums of the sizes -----

  function Sum(sizes: seq<nat>): nat {
    if sizes == [] then 0 else Sum(sizes[..|sizes| - 1]) + sizes[|sizes| - 1]
  }

  /** The blobs lie back to back from the start of `data`, inside it. */
  predicate Tiled(c: CompressedFrame) {
    && |c.regionOffsets| == |c.regionSizes|
    && (forall k :: 0 <= k < |c.regionSizes| ==> c.regionOffsets[k] == Sum(c.regionSizes[..k]))
    && Sum(c.regionSizes) <= |c.data|
  }

  lemma {:induction false} SumMonotone(sizes: seq<nat>, k: nat)
    requires k <= |sizes|
    ensures Sum(sizes[..k]) <= Sum(sizes)
    decreases |sizes| - k
  {
    if k < |sizes| {
      SumSnoc(sizes, k);
      SumMonotone(sizes, k + 1);
    } else {
      assert sizes[..k] == sizes;
    }
  }

  lemma SumSnoc(sizes: seq<nat>, k: nat)
    requires k < |sizes|
    ensures Sum(sizes[..k + 1]) == Sum(sizes[..k]) + sizes[k]
  {
    assert sizes[..k + 1][..k] == sizes[..k];
  }

  /** In a tiled frame every blob lies inside `data`. */
  lemma TiledInside(c: CompressedFrame, k: nat)
    requires Tiled(c) && k < |c.regionSizes|
    ensures c.regionOffsets[k] + c.regionSizes[k] <= |c.data|
  {
    SumSnoc(c.regionSizes, k);
    SumMonotone(c.regionSizes, k + 1);
  }

  predicate RunningSums(e: Entries) {
    && |e.offsets| == |e.sizes| && e.end == Sum(e.sizes)
    && forall k :: 0 <= k < |e.sizes| ==> e.offsets[k] == Sum(e.sizes[..k])
  }

  lemma ExtendSums(e: Entries, w: WireRegion)
    requires RunningSums(e)
    ensures RunningSums(Extend(e, w))
  {
    var f := Extend(e, w);
    assert f.sizes[..|e.sizes|] == e.sizes;
    forall k | 0 <= k < |f.sizes| ensures f.offsets[k] == Sum(f.sizes[..k]) {
      assert f.sizes[..k] == e.sizes[..k];
    }
  }

  lemma {:induction false} EntriesSum(payload: seq<byte>, n: nat)
    requires META_SIZE + REGION_SIZE * n <= |payload|
    ensures RunningSums(EntriesUpTo(payload, n))
  {
    hide EntryAt, Extend, RunningSums;
    if n > 0 {
      EntriesSum(payload, n - 1);
      ExtendSums(EntriesUpTo(payload, n - 1), EntryAt(payload, n - 1));
    } else {
      NoSums();
    }
  }

  lemma NoSums()
    ensures RunningSums(Entries([], [], [], 0))
  {}

  /** Whatever the deserializer accepts is tiled, so no later slice can go out of bounds. */
  lemma DeserializedIsTiled(payload: seq<byte>)
    requires Deserialize(payload).Ok?
    ensures var p := Deserialize(payload).value;
            Tiled(p.compressed) && |p.regions| == |p.compressed.regionSizes|
  {
    EntriesSum(payload, ParseMeta(payload[..META_SIZE]).numRegions);
  }

  // ----- Round trips -----

  lemma {:induction false} TableLength(regions: seq<DamageRect>, sizes: seq<nat>, k: nat)
    requires |regions| <= |sizes| && k <= |regions|
    ensures |Table(regions, sizes, k)| == REGION_SIZE * (|regions| - k)
    decreases |regions| - k
  {
    if k < |regions| {
      TableLength(regions, sizes, k + 1);
    }
  }

  lemma {:induction false} TableAt(regions: seq<DamageRect>, sizes: seq<nat>, k: nat, i: nat,
                                   before: seq<byte>, after: seq<byte>)
    requires |regions| <= |sizes| && k <= i < |regions|
    ensures var off := |before| + REGION_SIZE * (i - k);
            var p := before + Table(regions, sizes, k) + after;
            off + REGION_SIZE <= |p| && p[off..off + REGION_SIZE] == RegionBytes(EntryFor(regions, sizes, i))
    decreases i - k
  {
    var head, tail := RegionBytes(EntryFor(regions, sizes, k)), Table(regions, sizes, k + 1);
    AppendAssoc(before, head, tail);
    AppendAssoc(before + head, tail, after);
    if i > k {
      TableAt(regions, sizes, k + 1, i, before + head, after);
    }
  }

  /** Field widths of the wire format hold what they are given. */
  predicate Encodable(regions: seq<DamageRect>, c: CompressedFrame) {
    && |regions| == |c.regionSizes| < 0x1_0000_0000
    && (forall k :: 0 <= k < |c.regionSizes| ==> c.regionSizes[k] < 0x1_0000_0000)
    && Tiled(c)
  }

  function EntriesPrefix(regions: seq<DamageRect>, c: CompressedFrame, n: nat): Entries
    requires n <= |regions| && Encodable(regions, c)
  {
    Entries(regions[..n], c.regionOffsets[..n], c.regionSizes[..n], Sum(c.regionSizes[..n]))
  }

  lemma ExtendPrefix(regions: seq<DamageRect>, c: CompressedFrame, n: nat)
    requires n < |regions| && Encodable(regions, c)
    ensures Extend(EntriesPrefix(regions, c, n), WireRegion(regions[n], c.regionSizes[n]))
            == EntriesPrefix(regions, c, n + 1)
  {
    SumSnoc(c.regionSizes, n);
  }

  /** The table of `payload` holds the given regions and sizes. */
  predicate TableHolds(payload: seq<byte>, regions: seq<DamageRect>, sizes: seq<nat>)
    requires |regions| <= |sizes| && META_SIZE + REGION_SIZE * |regions| <= |payload|
  {
    forall k :: 0 <= k < |regions| ==> EntryAt(payload, k) == EntryFor(regions, sizes, k)
  }

  lemma HeldEntry(payload: seq<byte>, regions: seq<DamageRect>, c: CompressedFrame, k: nat)
    requires k < |regions| && Encodable(regions, c)
    requires META_SIZE + REGION_SIZE * |regions| <= |payload| && TableHolds(payload, regions, c.regionSizes)
    ensures EntryAt(payload, k) == WireRegion(regions[k], c.regionSizes[k])
  {
    hide EntryAt;
  }

  lemma EmptyPrefix(regions: seq<DamageRect>, c: CompressedFrame)
    requires Encodable(regions, c)
    ensures EntriesPrefix(regions, c, 0) == Entries([], [], [], 0)
  {}

  lemma {:induction false} EntriesOfSerialized(payload: seq<byte>, regions: seq<DamageRect>, c: CompressedFrame, n: nat)
    requires n <= |regions| && Encodable(regions, c)
    requires META_SIZE + REGION_SIZE * |regions| <= |payload| && TableHolds(payload, regions, c.regionSizes)
    ensures EntriesUpTo(payload, n) == EntriesPrefix(regions, c, n)
  {
    hide EntryAt, Extend, EntriesPrefix, TableHolds, Encodable;
    if n > 0 {
      EntriesOfSerialized(payload, regions, c, n - 1);
      HeldEntry(payload, regions, c, n - 1);
      ExtendPrefix(regions, c, n - 1);
    } else {
      EmptyPrefix(regions, c);
    }
  }

  lemma SerializedMeta(width: u32, height: u32, stride: u32, regions: seq<DamageRect>, c: CompressedFrame)
    requires |regions| <= |c.regionSizes| && |regions| < 0x1_0000_0000
    ensures var p := Serialize(width, height, stride, regions, c);
            && |p| == META_SIZE + REGION_SIZE * |regions| + |c.data|
            && ParseMeta(p[..META_SIZE]) == FrameMeta(width, height, stride, |regions|)
            && p[META_SIZE + REGION_SIZE * |regions|..] == c.data
  {
    SerializedParts(width, height, stride, regions, c);
    MetaRoundTrip(FrameMeta(width, height, stride, |regions|));
  }

  lemma SerializedParts(width: u32, height: u32, stride: u32, regions: seq<DamageRect>, c: CompressedFrame)
    requires |regions| <= |c.regionSizes| && |regions| < 0x1_0000_0000
    ensures var p := Serialize(width, height, stride, regions, c);
            && |p| == META_SIZE + REGION_SIZE * |regions| + |c.data|
            && p[..META_SIZE] == MetaBytes(FrameMeta(width, height, stride, |regions|))
            && p[META_SIZE + REGION_SIZE * |regions|..] == c.data
  {
    var meta := FrameMeta(width, height, stride, |regions|);
    assert |regions| % 0x1_0000_0000 == |regions|;
    TableLength(regions, c.regionSizes, 0);
    JoinedParts(MetaBytes(meta), Table(regions, c.regionSizes, 0), c.data);
  }

  lemma JoinedParts(a: seq<byte>, b: seq<byte>, c: seq<byte>)
    ensures |a + b + c| == |a| + |b| + |c|
    ensures (a + b + c)[..|a|] == a && (a + b + c)[|a| + |b|..] == c
  {}

  /** Printing, then parsing: dimensions, rectangles, sizes, offsets and data all come back. */
  lemma SerializeRoundTrip(width: u32, height: u32, stride: u32, regions: seq<DamageRect>, c: CompressedFrame)
    requires Encodable(regions, c)
    ensures Deserialize(Serialize(width, height, stride, regions, c)) == Ok(Parsed(width, height, stride, regions, c))
  {
    var p := Serialize(width, height, stride, regions, c);
    SerializedMeta(width, height, stride, regions, c);
    SerializedTable(width, height, stride, regions, c);
    EntriesOfSerialized(p, regions, c, |regions|);
    WholePrefix(regions, c);
  }

  lemma EntryOfTable(regions: seq<DamageRect>, sizes: seq<nat>, before: seq<byte>, after: seq<byte>, k: nat)
    requires k < |regions| <= |sizes| && |before| == META_SIZE
    ensures var p := before + Table(regions, sizes, 0) + after;
            META_SIZE + REGION_SIZE * (k + 1) <= |p| && EntryAt(p, k) == EntryFor(regions, sizes, k)
  {
    TableAt(regions, sizes, 0, k, before, after);
    RegionRoundTrip(EntryFor(regions, sizes, k));
  }

  lemma SerializedTable(width: u32, height: u32, stride: u32, regions: seq<DamageRect>, c: CompressedFrame)
    requires |regions| <= |c.regionSizes| && |regions| < 0x1_0000_0000
    ensures var p := Serialize(width, height, stride, regions, c);
            META_SIZE + REGION_SIZE * |regions| <= |p| && TableHolds(p, regions, c.regionSizes)
  {
    TableLength(regions, c.regionSizes, 0);
    var head := MetaBytes(FrameMeta(width, height, stride, |regions| % 0x1_0000_0000));
    forall k | 0 <= k < |regions|
      ensures META_SIZE + REGION_SIZE * (k + 1) <= |head + Table(regions, c.regionSizes, 0) + c.data|
      ensures EntryAt(head + Table(regions, c.regionSizes, 0) + c.data, k) == EntryFor(regions, c.regionSizes, k)
    {
      EntryOfTable(regions, c.regionSizes, head, c.data, k);
    }
  }

  lemma WholePrefix(regions: seq<DamageRect>, c: CompressedFrame)
    requires Encodable(regions, c)
    ensures EntriesPrefix(regions, c, |regions|)
            == Entries(regions, c.regionOffsets, c.regionSizes, Sum(c.regionSizes))
  {
    assert regions[..|regions|] == regions && c.regionSizes[..|regions|] == c.regionSizes;
    assert c.regionOffsets[..|regions|] == c.regionOffsets;
  }

  lemma EntryPrefix(payload: seq<byte>, n: nat, k: nat)
    requires META_SIZE + REGION_SIZE * n <= |payload| && k < n
    ensures EntriesUpTo(payload, n).regions[k] == EntryAt(payload, k).rect
    ensures EntriesUpTo(payload, n).sizes[k] == EntryAt(payload, k).compressedSize
  {
    if k < n - 1 {
      EntryPrefix(payload, n - 1, k);
    }
  }

  lemma EntryOfParsed(payload: seq<byte>, n: nat, k: nat)
    requires META_SIZE + REGION_SIZE * n <= |payload| && k < n
    ensures EntryFor(EntriesUpTo(payload, n).regions, EntriesUpTo(payload, n).sizes, k) == EntryAt(payload, k)
  {
    EntryPrefix(payload, n, k);
  }

  lemma {:induction false} TableOfParsed(payload: seq<byte>, n: nat, k: nat)
    requires META_SIZE + REGION_SIZE * n <= |payload| && k <= n
    ensures var e := EntriesUpTo(payload, n);
            Table(e.regions, e.sizes, k) == payload[META_SIZE + REGION_SIZE * k..META_SIZE + REGION_SIZE * n]
    decreases n - k
  {
    hide EntriesUpTo, EntryAt, EntryFor, RegionBytes;
    if k < n {
      TableOfParsed(payload, n, k + 1);
      EntryOfParsed(payload, n, k);
      EntryBytes(payload, n, k);
    }
  }

  lemma SlicesJoin(s: seq<byte>, a: nat, b: nat, c: nat)
    requires a <= b <= c <= |s|
    ensures s[a..b] + s[b..c] == s[a..c]
  {}

  lemma EntryBytes(payload: seq<byte>, n: nat, k: nat)
    requires META_SIZE + REGION_SIZE * n <= |payload| && k < n
    ensures RegionBytes(EntryAt(payload, k)) + payload[META_SIZE + REGION_SIZE * (k + 1)..META_SIZE + REGION_SIZE * n]
            == payload[META_SIZE + REGION_SIZE * k..META_SIZE + REGION_SIZE * n]
  {
    hide RegionBytes, ParseRegion;
    var from := META_SIZE + REGION_SIZE * k;
    RegionBytesRoundTrip(payload[from..from + REGION_SIZE]);
    SlicesJoin(payload, from, from + REGION_SIZE, META_SIZE + REGION_SIZE * n);
  }

  /** Parsing, then printing: every accepted payload is reproduced byte for byte. */
  lemma DeserializeRoundTrip(payload: seq<byte>)
    requires Deserialize(payload).Ok?
    ensures var p := Deserialize(payload).value;
            Serialize(p.width, p.height, p.stride, p.regions, p.compressed) == payload
  {
    var meta := ParseMeta(payload[..META_SIZE]);
    var p, e := Deserialize(payload).value, EntriesUpTo(payload, meta.numRegions);
    assert FrameMeta(p.width, p.height, p.stride, |p.regions| % 0x1_0000_0000) == meta;
    assert p.regions == e.regions && p.compressed.regionSizes == e.sizes;
    ParsedPrints(payload);
  }

  lemma ParsedPrints(payload: seq<byte>)
    requires |payload| >= META_SIZE
    requires META_SIZE + REGION_SIZE * ParseMeta(payload[..META_SIZE]).numRegions <= |payload|
    ensures var meta := ParseMeta(payload[..META_SIZE]);
            var e := EntriesUpTo(payload, meta.numRegions);
            MetaBytes(meta) + Table(e.regions, e.sizes, 0) + payload[META_SIZE + REGION_SIZE * meta.numRegions..] == payload
  {
    var n := ParseMeta(payload[..META_SIZE]).numRegions;
    MetaBytesRoundTrip(payload[..META_SIZE]);
    TableOfParsed(payload, n, 0);
    ThreeParts(payload, META_SIZE, META_SIZE + REGION_SIZE * n);
  }

  lemma ThreeParts(s: seq<byte>, m: nat, n: nat)
    requires m <= n <= |s|
    ensures s[..m] + s[m..n] + s[n..] == s
  {}

  // ----- Payloads by their bytes -----

  lemma SliceWord(b: seq<byte>, i: nat, k: nat, n: nat)
    requires i + k + 4 <= i + n <= |b|
    ensures U32At(b[i..i + n], k) == U32At(b, i + k)
  {}

  lemma MetaInside(m: FrameMeta, b: seq<byte>)
    requires |b| >= 16 && MetaAt(m, b[..16], 0)
    ensures MetaAt(m, b, 0)
  {
    hide U32At;
    assert b[..16] == b[0..16];
    SliceWord(b, 0, 0, 16); SliceWord(b, 0, 4, 16); SliceWord(b, 0, 8, 16); SliceWord(b, 0, 12, 16);
  }

  lemma RegionInside(w: WireRegion, b: seq<byte>, i: nat)
    requires i + 20 <= |b| && RegionAt(w, b[i..i + 20], 0)
    ensures RegionAt(w, b, i)
  {
    hide U32At;
    SliceWord(b, i, 0, 20); SliceWord(b, i, 4, 20); SliceWord(b, i, 8, 20); SliceWord(b, i, 12, 20);
    SliceWord(b, i, 16, 20);
  }

  /** What the server writes, by its bytes: the frame record, then a region record every twenty bytes,
      each with its rectangle and blob size, then the blobs. */
  lemma SerializeLayout(width: u32, height: u32, stride: u32, regions: seq<DamageRect>, c: CompressedFrame)
    requires |regions| == |c.regionSizes| < 0x1_0000_0000
    requires forall k :: 0 <= k < |regions| ==> c.regionSizes[k] < 0x1_0000_0000
    ensures var p, n := Serialize(width, height, stride, regions, c), |regions|;
            && |p| == 16 + 20 * n + |c.data| && MetaAt(FrameMeta(width, height, stride, n), p, 0)
            && (forall k :: 0 <= k < n ==> RegionAt(WireRegion(regions[k], c.regionSizes[k]), p, 16 + 20 * k))
            && p[16 + 20 * n..] == c.data
  {
    hide RegionAt, MetaAt, Serialize, EntryAt;
    var p, n := Serialize(width, height, stride, regions, c), |regions|;
    SerializedMeta(width, height, stride, regions, c);
    SerializedTable(width, height, stride, regions, c);
    ParseMetaLayout(p[..16]);
    MetaInside(FrameMeta(width, height, stride, n), p);
    forall k | 0 <= k < n ensures RegionAt(WireRegion(regions[k], c.regionSizes[k]), p, 16 + 20 * k) {
      EntryLayout(p, k);
      assert EntryAt(p, k) == EntryFor(regions, c.regionSizes, k);
    }
  }

  lemma EntryLayout(p: seq<byte>, k: nat)
    requires 16 + 20 * (k + 1) <= |p|
    ensures RegionAt(EntryAt(p, k), p, 16 + 20 * k)
  {
    hide RegionAt, ParseRegion;
    var i := 16 + 20 * k;
    ParseRegionLayout(p[i..i + 20]);
    RegionInside(EntryAt(p, k), p, i);
  }

  /** The blob sizes in the region table, by their bytes. */
  function SizesAt(p: seq<byte>, n: nat): (sizes: seq<nat>)
    requires 16 + 20 * n <= |p|
    ensures |sizes| == n && forall k :: 0 <= k < n ==> sizes[k] == U32At(p, 16 + 20 * k + 16)
  {
    seq(n, k requires 0 <= k < n => U32At(p, 16 + 20 * k + 16))
  }

  /** What the client accepts, by the bytes: the frame record, all of the region table it announces, and
      at least as many bytes of data as the blob sizes add up to; each lack is told apart. */
  lemma DeserializeExactly(p: seq<byte>)
    ensures Deserialize(p) == Err(TooShortForMeta) <==> |p| < 16
    ensures Deserialize(p) == Err(TooShortForRegions) <==> |p| >= 16 && |p| < 16 + 20 * U32At(p, 12)
    ensures Deserialize(p) == Err(TooShortForData)
       <==> |p| >= 16 && 16 + 20 * U32At(p, 12) <= |p| < 16 + 20 * U32At(p, 12) + Sum(SizesAt(p, U32At(p, 12)))
    ensures Deserialize(p).Ok? ==>
              var r, n := Deserialize(p).value, |Deserialize(p).value.regions|;
              && |p| >= 16 && 16 + 20 * n <= |p| && n == |r.compressed.regionSizes|
              && MetaAt(FrameMeta(r.width, r.height, r.stride, n % 0x1_0000_0000), p, 0) && n < 0x1_0000_0000
              && (forall k :: 0 <= k < n ==>
                    RegionAt(WireRegion(r.regions[k], r.compressed.regionSizes[k] % 0x1_0000_0000), p, 16 + 20 * k))
              && r.compressed.data == p[16 + 20 * n..]
  {
    hide RegionAt, U32At, EntriesUpTo, Sum, SizesAt, ParseMeta;
    if |p| >= 16 {
      ParseMetaLayout(p[..16]);
      MetaInside(ParseMeta(p[..16]), p);
      var n := ParseMeta(p[..16]).numRegions;
      if 16 + 20 * n <= |p| {
        ParsedEntries(p, n);
      }
    }
  }

  lemma ParsedEntries(p: seq<byte>, n: nat)
    requires 16 + 20 * n <= |p|
    ensures var e := EntriesUpTo(p, n);
            && e.end == Sum(e.sizes) && e.sizes == SizesAt(p, n)
            && forall k :: 0 <= k < n ==>
                 RegionAt(WireRegion(e.regions[k], e.sizes[k] % 0x1_0000_0000), p, 16 + 20 * k)
  {
    hide RegionAt, EntryAt, U32At, EntriesUpTo;
    EntriesSum(p, n);
    var e := EntriesUpTo(p, n);
    forall k | 0 <= k < n
      ensures e.sizes[k] == SizesAt(p, n)[k]
      ensures RegionAt(WireRegion(e.regions[k], e.sizes[k] % 0x1_0000_0000), p, 16 + 20 * k)
    {
      EntryPrefix(p, n, k);
      EntryLayout(p, k);
      EntrySize(p, k);
    }
    assert e.sizes == SizesAt(p, n);
  }

  lemma EntrySize(p: seq<byte>, k: nat)
    requires 16 + 20 * (k + 1) <= |p|
    ensures EntryAt(p, k).compressedSize == U32At(p, 16 + 20 * k + 16)
  {
    hide EntryAt, U32At;
    EntryLayout(p, k);
  }
}
