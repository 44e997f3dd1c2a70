/** Exactly when a single message survives the trip through splitter and parser. */
module ChunkSurvival {
  import opened Arith
  import opened Bytes
  import opened Header
  import opened Framing
  import opened ChunkSender

  /** The caller-checkable condition: no chunk above the parser's limit, and LAST_CHUNK
      not smuggled in through the extra flags of a message that needs several chunks. */
  predicate Survives(o: Outgoing, chunkSize: pos) {
    && (chunkSize <= MAX_PAYLOAD_LEN || |o.payload| <= MAX_PAYLOAD_LEN)
    && (NoLast(o) || |o.payload| <= chunkSize)
  }

  lemma SingleChunk(o: Outgoing, chunkSize: pos)
    requires |o.payload| <= chunkSize
    ensures ChunksOf(o, chunkSize) == [Chunk(HeaderFor(o, true, |o.payload|), o.payload)]
    ensures Reassemble(map[], ChunksOf(o, chunkSize)) == (map[], [Delivered(o, chunkSize)])
  {
    var c := Chunk(HeaderFor(o, true, |o.payload|), o.payload);
    if o.payload != [] {
      assert o.payload[0..|o.payload|] == o.payload;
      assert ChunksFrom(o, chunkSize, |o.payload|) == [];
      assert ChunksFrom(o, chunkSize, 0) == [c] + [];
      AppendEmpty([c]);
    }
    LastFlag(o.extraFlags);
    FastPathAgrees(map[], c);
    AppendEmpty(o.payload);
    AppendTail(c, []);
    AppendEmpty(Accept(map[], c).1);
    var none: ChunkMap := map[];
    assert none - {o.streamId} == none;
  }

  /** With LAST_CHUNK on every chunk, every chunk is a message of its own. */
  lemma {:induction false} EveryChunkIsAMessage(w: seq<Chunk>)
    requires forall c <- w :: c.header.IsLast()
    ensures |Reassemble(map[], w).1| == |w|
  {
    if w != [] {
      FastPathAgrees(map[], w[0]);
      var none: ChunkMap := map[];
      assert w[0] in w && none - {w[0].header.streamId} == none;
      EveryChunkIsAMessage(w[1..]);
    }
  }

  lemma {:induction false} ChunksFromAllLast(o: Outgoing, chunkSize: pos, offset: nat)
    requires !NoLast(o)
    ensures forall c <- ChunksFrom(o, chunkSize, offset) :: c.header.IsLast()
    decreases |o.payload| - offset
  {
    if offset < |o.payload| {
      LastFlag(o.extraFlags);
      ChunksFromAllLast(o, chunkSize, EndOf(o, chunkSize, offset));
    }
  }

  lemma {:induction false} ChunksFromSize(o: Outgoing, chunkSize: pos, offset: nat)
    requires offset <= |o.payload|
    ensures |Wire(ChunksFrom(o, chunkSize, offset))|
            == HEADER_SIZE * |ChunksFrom(o, chunkSize, offset)| + (|o.payload| - offset)
    decreases |o.payload| - offset
  {
    if offset < |o.payload| {
      var c, end := ChunkAt(o, chunkSize, offset), EndOf(o, chunkSize, offset);
      ChunksFromSize(o, chunkSize, end);
      WireCons(c, ChunksFrom(o, chunkSize, end), []);
    }
  }

  /** A parser cannot emit more than the limit allows per consumed chunk. */
  lemma {:induction false} PayloadBound(chunks: ChunkMap, w: seq<Chunk>)
    requires ValidChunks(w)
    ensures PayloadTotal(Reassemble(chunks, w).1) <= Held(chunks) + MAX_PAYLOAD_LEN * |w|
    decreases |w|
  {
    if w != [] {
      var (next, first) := Accept(chunks, w[0]);
      AcceptConserves(chunks, w[0]);
      assert w[0] in w;
      PayloadBound(next, w[1..]);
      PayloadTotalConcat(first, Reassemble(next, w[1..]).1);
    }
  }

  lemma {:induction false} NothingHeld(n: nat)
    requires n <= 0x1_0000
    ensures HeldBelow(map[], n) == 0
  {
    if n > 0 {
      NothingHeld(n - 1);
    }
  }

  lemma OversizedFront(c: Chunk, tail: seq<byte>)
    requires c.header.payloadLen > MAX_PAYLOAD_LEN
    ensures FrontOf(ChunkBytes(c) + tail).Invalid?
  {
    hide HeaderBytes, ParseHeader;
    assert (ChunkBytes(c) + tail)[..HEADER_SIZE] == HeaderBytes(c.header);
    HeaderRoundTrip(c.header);
  }

  /** A chunk above the limit whose length the header can hold is refused at once. */
  lemma OversizedIsRefused(o: Outgoing, chunkSize: pos)
    requires chunkSize > MAX_PAYLOAD_LEN && |o.payload| > MAX_PAYLOAD_LEN
    requires EndOf(o, chunkSize, 0) < 0x1_0000_0000
    ensures FrontOf(Wire(ChunksOf(o, chunkSize))).Invalid?
  {
    hide FrontOf, ChunkBytes, Wire;
    var c, rest := ChunkAt(o, chunkSize, 0), ChunksFrom(o, chunkSize, EndOf(o, chunkSize, 0));
    WireCons(c, rest, []);
    OversizedFront(c, Wire(rest));
  }

  /** Above 4 GiB the length field is truncated, and no parse can account for the bytes. */
  lemma OversizedIsLost(o: Outgoing, chunkSize: pos)
    requires EndOf(o, chunkSize, 0) >= 0x1_0000_0000
    ensures Push(FreshParser, Wire(ChunksOf(o, chunkSize))) != Drained(FreshParser, [Delivered(o, chunkSize)], None)
  {
    var w := ChunksOf(o, chunkSize);
    var bytes := Wire(w);
    var r := Push(FreshParser, bytes);
    if r == Drained(FreshParser, [Delivered(o, chunkSize)], None) {
      AppendEmpty(bytes);
      PushConservesBytes(FreshParser, bytes);
      ChunksFromSize(o, chunkSize, 0);
      NothingHeld(0x1_0000);
      WireScan(bytes);
      PayloadBound(map[], Scan(bytes).0);
      assert r.out[1..] == [] && PayloadTotal(r.out) == |o.payload|;
      assert |Scan(bytes).0| == |w|;
      ChunkCountIsExact(o, chunkSize);
      FewChunks(|o.payload|, chunkSize);
    }
  }

  lemma FewChunks(len: nat, chunkSize: pos)
    requires len >= 0x1_0000_0000 && chunkSize >= 0x1_0000_0000
    ensures MAX_PAYLOAD_LEN * ChunkCount(len, chunkSize) < len
  {
    var k := ChunkCount(len, chunkSize);
    DivModParts(len + chunkSize - 1, chunkSize);
    assert k * chunkSize <= len + chunkSize - 1;
    if k >= 2 {
      assert (k - 1) * chunkSize == k * chunkSize - chunkSize;
      assert (k - 1) * 0x1_0000_0000 <= (k - 1) * chunkSize by { MulMono(0x1_0000_0000, chunkSize, k - 1); }
    }
  }

  lemma SplitIsReassembled(o: Outgoing, chunkSize: pos)
    requires chunkSize <= MAX_PAYLOAD_LEN || |o.payload| <= MAX_PAYLOAD_LEN
    ensures var w := ChunksOf(o, chunkSize);
            Push(FreshParser, Wire(w)) == Drained(Parser([], Reassemble(map[], w).0), Reassemble(map[], w).1, None)
  {
    var w := ChunksOf(o, chunkSize);
    ChunksFromValid(o, chunkSize, 0);
    AppendEmpty(Wire(w));
    assert Concat([Wire(w)]) == Wire(w);
    WireIsReassembled(w, [Wire(w)]);
    FragmentationIndependence(FreshParser, [Wire(w)]);
  }

  lemma FlaggedChunksSplit(o: Outgoing, chunkSize: pos)
    requires !NoLast(o) && |o.payload| > chunkSize
    ensures |Reassemble(map[], ChunksOf(o, chunkSize)).1| >= 2
  {
    var rest := ChunksFrom(o, chunkSize, chunkSize);
    assert ChunksOf(o, chunkSize) == [ChunkAt(o, chunkSize, 0)] + rest && rest != [];
    ChunksFromAllLast(o, chunkSize, 0);
    EveryChunkIsAMessage(ChunksOf(o, chunkSize));
  }

  /** One message sent alone arrives as itself if and only if `Survives` holds. */
  lemma SurvivesExactly(o: Outgoing, chunkSize: pos)
    ensures Push(FreshParser, Wire(ChunksOf(o, chunkSize))) == Drained(FreshParser, [Delivered(o, chunkSize)], None)
       <==> Survives(o, chunkSize)
  {
    if chunkSize > MAX_PAYLOAD_LEN && |o.payload| > MAX_PAYLOAD_LEN {
      if EndOf(o, chunkSize, 0) < 0x1_0000_0000 {
        OversizedIsRefused(o, chunkSize);
        AppendEmpty(Wire(ChunksOf(o, chunkSize)));
      } else {
        OversizedIsLost(o, chunkSize);
      }
    } else {
      SplitIsReassembled(o, chunkSize);
      if |o.payload| <= chunkSize {
        SingleChunk(o, chunkSize);
      } else if NoLast(o) {
        ChunksOfReassemble(o, chunkSize, map[]);
      } else {
        FlaggedChunksSplit(o, chunkSize);
      }
    }
  }
}
