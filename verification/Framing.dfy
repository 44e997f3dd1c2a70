/** What the incremental stream parser computes, as functions on values.

    A buffer is scanned into chunks (`Scan`), the chunks are reassembled per
    stream (`Reassemble`), and `Push` is both on the buffered bytes plus the
    new ones. */
module Framing {
  import opened Bytes
  import opened Header

  const MAX_PAYLOAD_LEN := 4 * 1024 * 1024

  datatype FramingError = UnknownMsgType(v: byte) | PayloadTooLarge(len: u32)

  /** One header with the payload bytes that follow it. */
  datatype Chunk = Chunk(header: FrameHeader, payload: seq<byte>)

  /** A reassembled message; its header is the last chunk's. */
  datatype Message = Message(header: FrameHeader, payload: seq<byte>)

  type ChunkMap = map<u16, seq<byte>>

  datatype Parser = Parser(buf: seq<byte>, chunks: ChunkMap)

  /** The result of draining a parser. `out` holds every message completed
      before `error`; a failing push of the real parser throws them away. */
  datatype Drained = Drained(parser: Parser, out: seq<Message>, error: Option<FramingError>)

  const FreshParser := Parser([], map[])

  // ----- Printing -----

  function ChunkBytes(c: Chunk): seq<byte> {
    HeaderBytes(c.header) + c.payload
  }

  function Wire(w: seq<Chunk>): seq<byte> {
    if w == [] then [] else ChunkBytes(w[0]) + Wire(w[1..])
  }

  /** The chunks a well-behaved sender emits. */
  predicate ValidChunk(c: Chunk) {
    |c.payload| == c.header.payloadLen <= MAX_PAYLOAD_LEN && c.header.msgType <= 8
  }

  predicate ValidChunks(w: seq<Chunk>) {
    forall c <- w :: ValidChunk(c)
  }

  // ----- Scanning -----

  datatype Front = Incomplete | Invalid(error: FramingError) | Complete(chunk: Chunk)

  /** What the front of the buffer holds, in the order in which the parser checks it. */
  function FrontOf(buf: seq<byte>): (f: Front)
    ensures f.Complete? ==> HEADER_SIZE + |f.chunk.payload| <= |buf|
  {
    if |buf| < HEADER_SIZE then Incomplete
    else
      var h := ParseHeader(buf[..HEADER_SIZE]);
      if h.payloadLen > MAX_PAYLOAD_LEN then Invalid(PayloadTooLarge(h.payloadLen))
      else if |buf| < HEADER_SIZE + h.payloadLen then Incomplete
      else if TryFrom(h.msgType).None? then Invalid(UnknownMsgType(h.msgType))
      else Complete(Chunk(h, buf[HEADER_SIZE..HEADER_SIZE + h.payloadLen]))
  }

  function SizeOnWire(c: Chunk): nat {
    HEADER_SIZE + |c.payload|
  }

  /** All complete chunks at the front of the buffer, and what is left. */
  function Scan(buf: seq<byte>): (r: (seq<Chunk>, seq<byte>))
    decreases |buf|
  {
    match FrontOf(buf)
    case Complete(c) =>
      var (w, rest) := Scan(buf[SizeOnWire(c)..]);
      ([c] + w, rest)
    case _ => ([], buf)
  }

  // ----- Reassembly -----

  function Pending(chunks: ChunkMap, id: u16): seq<byte> {
    if id in chunks then chunks[id] else []
  }

  /** One chunk, with the parser's single-chunk fast path. */
  function Accept(chunks: ChunkMap, c: Chunk): (ChunkMap, seq<Message>) {
    var id := c.header.streamId;
    if c.header.IsLast() && id !in chunks && |c.payload| == c.header.payloadLen then
      (chunks, [Message(c.header, c.payload)])
    else
      var full := Pending(chunks, id) + c.payload;
      if c.header.IsLast() then (chunks[id := full] - {id}, [Message(c.header, full)])
      else (chunks[id := full], [])
  }

  function Reassemble(chunks: ChunkMap, w: seq<Chunk>): (ChunkMap, seq<Message>)
    decreases |w|
  {
    if w == [] then (chunks, [])
    else
      var (next, first) := Accept(chunks, w[0]);
      var (last, rest) := Reassemble(next, w[1..]);
      (last, first + rest)
  }

  // ----- Pushing -----

  function Drain(p: Parser): Drained {
    var (w, rest) := Scan(p.buf);
    var (chunks, out) := Reassemble(p.chunks, w);
    Drained(Parser(rest, chunks), out,
            match FrontOf(rest)
            case Invalid(e) => Some(e)
            case _ => None)
  }

  function Push(p: Parser, data: seq<byte>): Drained {
    Drain(Parser(p.buf + data, p.chunks))
  }

  /** The read loop: push fragment after fragment, stop at the first error.
      The messages of the failing push never leave the parser. */
  function PushAll(p: Parser, frags: seq<seq<byte>>): Drained
    decreases |frags|
  {
    if frags == [] then Drained(p, [], None)
    else
      var first := Push(p, frags[0]);
      if first.error.Some? then Drained(first.parser, [], first.error)
      else
        var rest := PushAll(first.parser, frags[1..]);
        rest.(out := first.out + rest.out)
  }

  function Concat(frags: seq<seq<byte>>): seq<byte> {
    if frags == [] then [] else frags[0] + Concat(frags[1..])
  }

  /** True of a parser between two successful pushes. */
  predicate Settled(p: Parser) {
    FrontOf(p.buf).Incomplete?
  }

  // ----- The scanner inverts the printer -----

  lemma FrontOfExtended(buf: seq<byte>, more: seq<byte>)
    ensures FrontOf(buf).Incomplete? || FrontOf(buf + more) == FrontOf(buf)
  {
    if |buf| >= HEADER_SIZE {
      assert (buf + more)[..HEADER_SIZE] == buf[..HEADER_SIZE];
      var len := ParseHeader(buf[..HEADER_SIZE]).payloadLen;
      if HEADER_SIZE + len <= |buf| {
        assert (buf + more)[HEADER_SIZE..HEADER_SIZE + len] == buf[HEADER_SIZE..HEADER_SIZE + len];
      }
    }
  }

  lemma FrontOfChunkBytes(c: Chunk, tail: seq<byte>)
    requires ValidChunk(c)
    ensures FrontOf(ChunkBytes(c) + tail) == Complete(c)
    ensures (ChunkBytes(c) + tail)[SizeOnWire(c)..] == tail
  {
    var buf := ChunkBytes(c) + tail;
    HeaderRoundTrip(c.header);
    assert buf[..HEADER_SIZE] == HeaderBytes(c.header);
    assert buf[HEADER_SIZE..HEADER_SIZE + |c.payload|] == c.payload;
  }

  lemma ScanChunkBytes(c: Chunk, more: seq<byte>)
    requires ValidChunk(c)
    ensures Scan(ChunkBytes(c) + more) == ([c] + Scan(more).0, Scan(more).1)
  {
    FrontOfChunkBytes(c, more);
  }

  lemma WireCons(c: Chunk, w: seq<Chunk>, tail: seq<byte>)
    ensures Wire([c] + w) == ChunkBytes(c) + Wire(w)
    ensures Wire([c] + w) + tail == ChunkBytes(c) + (Wire(w) + tail)
  {
    AppendTail(c, w);
    AppendAssoc(ChunkBytes(c), Wire(w), tail);
  }

  /** Scanning gives back exactly the chunks that were printed, whatever follows them. */
  lemma {:induction false} ScanWire(w: seq<Chunk>, tail: seq<byte>)
    requires ValidChunks(w)
    ensures Scan(Wire(w) + tail) == (w + Scan(tail).0, Scan(tail).1)
  {
    if w == [] {
      AppendEmpty(tail);
      AppendEmpty(Scan(tail).0);
    } else {
      var c, v := w[0], w[1..];
      assert w == [c] + v;
      ScanWireStep(c, v, tail);
    }
  }

  lemma {:induction false} ScanWireStep(c: Chunk, v: seq<Chunk>, tail: seq<byte>)
    requires ValidChunk(c) && ValidChunks(v)
    ensures Scan(Wire([c] + v) + tail) == ([c] + v + Scan(tail).0, Scan(tail).1)
    decreases v
  {
    ScanWire(v, tail);
    ScanChunkBytes(c, Wire(v) + tail);
    WireCons(c, v, tail);
    AppendAssoc([c], v, Scan(tail).0);
  }

  lemma {:induction false} WireConcat(a: seq<Chunk>, b: seq<Chunk>)
    ensures Wire(a + b) == Wire(a) + Wire(b)
    decreases |a|
  {
    if a == [] {
      AppendEmpty(b);
      AppendEmpty(Wire(b));
    } else {
      assert (a + b)[1..] == a[1..] + b;
      WireConcat(a[1..], b);
      AppendAssoc(ChunkBytes(a[0]), Wire(a[1..]), Wire(b));
    }
  }

  lemma FrontIsPrinted(buf: seq<byte>)
    requires FrontOf(buf).Complete?
    ensures var c := FrontOf(buf).chunk;
            ValidChunk(c) && buf == ChunkBytes(c) + buf[SizeOnWire(c)..]
  {
    HeaderBytesRoundTrip(buf[..HEADER_SIZE]);
  }

  /** The front of a buffer by its bytes, in the order of the checks: no whole header; a length above
      4 MiB; no whole payload; an unknown type; or a chunk, its header and payload as they lie there. */
  lemma FrontByBytes(buf: seq<byte>)
    ensures |buf| < 16 ==> FrontOf(buf) == Incomplete
    ensures |buf| >= 16 ==>
              var len, f := U32At(buf, 4), FrontOf(buf);
              if len > 4_194_304 then f == Invalid(PayloadTooLarge(len))
              else if |buf| < 16 + len then f == Incomplete
              else if buf[2] > 8 then f == Invalid(UnknownMsgType(buf[2]))
              else f.Complete? && LaidOut(f.chunk.header, buf[..16]) && f.chunk.payload == buf[16..16 + len]
  {
    if |buf| >= 16 {
      ParseLayout(buf[..16]);
    }
  }

  /** Conversely, whatever the scanner takes is what a printer would have written. */
  lemma {:induction false} WireScan(buf: seq<byte>)
    ensures var (w, rest) := Scan(buf);
            buf == Wire(w) + rest && ValidChunks(w) && !FrontOf(rest).Complete?
    decreases |buf|
  {
    var f := FrontOf(buf);
    if f.Complete? {
      var c, more := f.chunk, buf[SizeOnWire(f.chunk)..];
      WireScan(more);
      FrontIsPrinted(buf);
      WireCons(c, Scan(more).0, Scan(more).1);
    } else {
      AppendEmpty(buf);
    }
  }

  lemma {:induction false} ScanExtended(buf: seq<byte>, more: seq<byte>)
    requires FrontOf(Scan(buf).1).Incomplete?
    ensures Scan(buf + more) == (Scan(buf).0 + Scan(Scan(buf).1 + more).0, Scan(Scan(buf).1 + more).1)
  {
    WireScan(buf);
    var (w, rest) := Scan(buf);
    AppendAssoc(Wire(w), rest, more);
    ScanWire(w, rest + more);
  }

  lemma {:induction false} ScanExtendedInvalid(buf: seq<byte>, more: seq<byte>)
    requires FrontOf(Scan(buf).1).Invalid?
    ensures Scan(buf + more) == (Scan(buf).0, Scan(buf).1 + more)
    ensures FrontOf(Scan(buf).1 + more) == FrontOf(Scan(buf).1)
  {
    WireScan(buf);
    var (w, rest) := Scan(buf);
    FrontOfExtended(rest, more);
    AppendAssoc(Wire(w), rest, more);
    ScanWire(w, rest + more);
    AppendEmpty(w);
  }

  lemma {:induction false} ReassembleConcat(chunks: ChunkMap, a: seq<Chunk>, b: seq<Chunk>)
    ensures var (mid, outA) := Reassemble(chunks, a);
            var (end, outB) := Reassemble(mid, b);
            Reassemble(chunks, a + b) == (end, outA + outB)
    decreases |a|
  {
    if a == [] {
      AppendEmpty(b);
      AppendEmpty(Reassemble(chunks, b).1);
    } else {
      var (next, first) := Accept(chunks, a[0]);
      assert (a + b)[1..] == a[1..] + b;
      ReassembleConcat(next, a[1..], b);
      var (mid, outA) := Reassemble(next, a[1..]);
      AppendAssoc(first, outA, Reassemble(mid, b).1);
    }
  }

  lemma ReassembleSnoc(chunks: ChunkMap, w: seq<Chunk>, c: Chunk)
    ensures Reassemble(chunks, w + [c]).0 == Accept(Reassemble(chunks, w).0, c).0
  {
    ReassembleConcat(chunks, w, [c]);
    assert [c][1..] == [];
  }

  /** The single-chunk fast path gives the same result as the accumulate path. */
  lemma FastPathAgrees(chunks: ChunkMap, c: Chunk)
    ensures var id := c.header.streamId;
            var full := Pending(chunks, id) + c.payload;
            Accept(chunks, c) ==
              if c.header.IsLast() then (chunks - {id}, [Message(c.header, full)])
              else (chunks[id := full], [])
  {
    var id := c.header.streamId;
    assert [] + c.payload == c.payload;
    assert chunks[id := Pending(chunks, id) + c.payload] - {id} == chunks - {id};
    assert id !in chunks ==> chunks - {id} == chunks;
  }

  function Prepend(out: seq<Message>, d: Drained): Drained {
    d.(out := out + d.out)
  }

  /** One turn of the parser's loop: take the front chunk, keep draining. */
  lemma DrainStep(p: Parser, out: seq<Message>)
    requires FrontOf(p.buf).Complete?
    ensures var c := FrontOf(p.buf).chunk;
            var (chunks, first) := Accept(p.chunks, c);
            Prepend(out, Drain(p)) == Prepend(out + first, Drain(Parser(p.buf[SizeOnWire(c)..], chunks)))
  {
    var c := FrontOf(p.buf).chunk;
    var (w, rest) := Scan(p.buf[SizeOnWire(c)..]);
    assert Scan(p.buf) == ([c] + w, rest);
    AppendTail(c, w);
    var (chunks, first) := Accept(p.chunks, c);
    var (last, more) := Reassemble(chunks, w);
    assert Reassemble(p.chunks, [c] + w) == (last, first + more);
    AppendAssoc(out, first, more);
  }

  lemma ScanStep(buf: seq<byte>, before: seq<Chunk>)
    requires FrontOf(buf).Complete?
    ensures var c := FrontOf(buf).chunk;
            before + Scan(buf).0 == before + [c] + Scan(buf[SizeOnWire(c)..]).0
  {
    var c := FrontOf(buf).chunk;
    AppendAssoc(before, [c], Scan(buf[SizeOnWire(c)..]).0);
  }

  /** The end of the parser's loop. */
  lemma DrainEnd(p: Parser, out: seq<Message>)
    requires !FrontOf(p.buf).Complete?
    ensures Prepend(out, Drain(p))
            == Drained(p, out, if FrontOf(p.buf).Invalid? then Some(FrontOf(p.buf).error) else None)
  {
    assert out + [] == out;
  }

  /** Any fragmentation of the wire form of valid chunks is reassembled chunk by chunk,
      and nothing stays in the buffer. */
  lemma WireIsReassembled(w: seq<Chunk>, frags: seq<seq<byte>>)
    requires ValidChunks(w) && Concat(frags) == Wire(w)
    ensures var (chunks, out) := Reassemble(map[], w);
            PushAll(FreshParser, frags) == Drained(Parser([], chunks), out, None)
  {
    assert Scan(Wire(w)) == (w, []) by {
      ScanWire(w, []);
      AppendEmpty(Wire(w));
      AppendEmpty(w);
    }
    AppendEmpty(Wire(w));
    FragmentationIndependence(FreshParser, frags);
  }

  // ----- Fragmentation independence -----

  /** Two pushes are one push of the joined bytes; an error keeps its place. */
  lemma PushTwice(p: Parser, a: seq<byte>, b: seq<byte>)
    ensures var first := Push(p, a);
            var second := Push(first.parser, b);
            Push(p, a + b) ==
              if first.error.Some? then first.(parser := first.parser.(buf := first.parser.buf + b))
              else second.(out := first.out + second.out)
  {
    var buf := p.buf + a;
    assert p.buf + (a + b) == buf + b;
    WireScan(buf);
    if FrontOf(Scan(buf).1).Invalid? {
      ScanExtendedInvalid(buf, b);
    } else {
      ScanExtended(buf, b);
      ReassembleConcat(p.chunks, Scan(buf).0, Scan(Scan(buf).1 + b).0);
    }
  }

  lemma PushNothing(p: Parser)
    requires Settled(p)
    ensures Push(p, []) == Drained(p, [], None)
  {
    assert p.buf + [] == p.buf;
  }

  lemma PushSettles(p: Parser, data: seq<byte>)
    ensures Push(p, data).error.None? ==> Settled(Push(p, data).parser)
  {
    WireScan(p.buf + data);
  }

  /** However the bytes are cut, the read loop behaves as one push of all of them:
      same error, and without an error the same messages and the same parser. */
  lemma {:induction false} FragmentationIndependence(p: Parser, frags: seq<seq<byte>>)
    requires Settled(p)
    ensures var whole := Push(p, Concat(frags));
            var parts := PushAll(p, frags);
            && whole.error == parts.error
            && (whole.error.None? ==> parts == whole && Settled(whole.parser))
            && parts.out <= whole.out
    decreases |frags|
  {
    if frags == [] {
      PushNothing(p);
    } else {
      PushTwice(p, frags[0], Concat(frags[1..]));
      PushSettles(p, frags[0]);
      var first := Push(p, frags[0]);
      if first.error.None? {
        FragmentationIndependence(first.parser, frags[1..]);
      }
    }
  }

  /** One more read: its messages come out unless it fails, then they are lost and its error stays;
      after an error nothing is read. */
  lemma {:induction false} ReadLoopStep(p: Parser, frags: seq<seq<byte>>, f: seq<byte>)
    ensures var before := PushAll(p, frags);
            var next := Push(before.parser, f);
            PushAll(p, frags + [f]) ==
              if before.error.Some? then before
              else Drained(next.parser, if next.error.Some? then before.out else before.out + next.out, next.error)
    decreases |frags|
  {
    hide Push;
    if frags == [] {
      assert [f][1..] == [];
      AppendEmpty(Push(p, f).out);
    } else {
      assert (frags + [f])[1..] == frags[1..] + [f];
      var first := Push(p, frags[0]);
      if first.error.None? {
        ReadLoopStep(first.parser, frags[1..], f);
        var rest := PushAll(first.parser, frags[1..]);
        AppendAssoc(first.out, rest.out, Push(rest.parser, f).out);
      }
    }
  }

  /** Once a push has failed, every later push fails with the same error and emits nothing. */
  lemma FailureIsSticky(p: Parser, data: seq<byte>, later: seq<byte>)
    requires Push(p, data).error.Some?
    ensures var after := Push(Push(p, data).parser, later);
            after.error == Push(p, data).error && after.out == []
  {
    var bad := Push(p, data).parser;
    FrontOfExtended(bad.buf, later);
  }

  lemma {:induction false} ConcatSnoc(frags: seq<seq<byte>>, rest: seq<byte>)
    ensures Concat(frags + [rest]) == Concat(frags) + rest
    decreases |frags|
  {
    if frags == [] {
      AppendEmpty(rest);
    } else {
      assert (frags + [rest])[1..] == frags[1..] + [rest];
      ConcatSnoc(frags[1..], rest);
      AppendAssoc(frags[0], Concat(frags[1..]), rest);
    }
  }

  // ----- Conservation of bytes -----

  function PayloadTotal(out: seq<Message>): nat {
    if out == [] then 0 else |out[0].payload| + PayloadTotal(out[1..])
  }

  /** Bytes held for streams below `n`. */
  function HeldBelow(chunks: ChunkMap, n: nat): nat
    requires n <= 0x1_0000
  {
    if n == 0 then 0 else |Pending(chunks, n - 1)| + HeldBelow(chunks, n - 1)
  }

  function Held(chunks: ChunkMap): nat {
    HeldBelow(chunks, 0x1_0000)
  }

  lemma {:induction false} HeldChange(a: ChunkMap, b: ChunkMap, id: u16, n: nat)
    requires n <= 0x1_0000
    requires forall k: u16 :: k != id ==> Pending(a, k) == Pending(b, k)
    ensures HeldBelow(b, n) == HeldBelow(a, n) + if id < n then |Pending(b, id)| - |Pending(a, id)| else 0
  {
    if n > 0 {
      HeldChange(a, b, id, n - 1);
    }
  }

  lemma AcceptConserves(chunks: ChunkMap, c: Chunk)
    ensures var (next, out) := Accept(chunks, c);
            Held(next) + PayloadTotal(out) == Held(chunks) + |c.payload|
  {
    FastPathAgrees(chunks, c);
    var (next, out) := Accept(chunks, c);
    HeldChange(chunks, next, c.header.streamId, 0x1_0000);
    assert out != [] ==> out[1..] == [];
  }

  lemma {:induction false} PayloadTotalConcat(a: seq<Message>, b: seq<Message>)
    ensures PayloadTotal(a + b) == PayloadTotal(a) + PayloadTotal(b)
  {
    if a == [] {
      assert a + b == b;
    } else {
      assert (a + b)[1..] == a[1..] + b;
      PayloadTotalConcat(a[1..], b);
    }
  }

  lemma {:induction false} ReassembleConserves(chunks: ChunkMap, w: seq<Chunk>)
    ensures var (last, out) := Reassemble(chunks, w);
            |Wire(w)| + Held(chunks) == HEADER_SIZE * |w| + PayloadTotal(out) + Held(last)
    decreases |w|
  {
    if w != [] {
      var (next, first) := Accept(chunks, w[0]);
      AcceptConserves(chunks, w[0]);
      ReassembleConserves(next, w[1..]);
      PayloadTotalConcat(first, Reassemble(next, w[1..]).1);
    }
  }

  /** Every byte fed is accounted for: sixteen per consumed chunk, the emitted
      payloads, the bytes held for open streams, and the unparsed buffer. */
  lemma PushConservesBytes(p: Parser, data: seq<byte>)
    ensures var r := Push(p, data);
            |p.buf| + |data| + Held(p.chunks)
            == HEADER_SIZE * |Scan(p.buf + data).0| + PayloadTotal(r.out) + Held(r.parser.chunks) + |r.parser.buf|
  {
    WireScan(p.buf + data);
    ReassembleConserves(p.chunks, Scan(p.buf + data).0);
  }
}
