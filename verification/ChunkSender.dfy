/** Splitting a payload into chunks, and the round trip through the parser. */
module ChunkSender {
  import opened Arith
  import opened Bytes
  import opened Header
  import opened Framing

  datatype Outgoing = Outgoing(streamId: u16, msgType: MsgType, extraFlags: byte, payload: seq<byte>, timestampNs: u64)

  function HeaderFor(o: Outgoing, last: bool, len: nat): FrameHeader {
    FrameHeader(o.streamId, Code(o.msgType), if last then o.extraFlags | LAST_CHUNK else o.extraFlags,
                len % 0x1_0000_0000, o.timestampNs)
  }

  function EndOf(o: Outgoing, chunkSize: pos, offset: nat): nat {
    if offset + chunkSize <= |o.payload| then offset + chunkSize else |o.payload|
  }

  function ChunkAt(o: Outgoing, chunkSize: pos, offset: nat): Chunk
    requires offset <= |o.payload|
  {
    var end := EndOf(o, chunkSize, offset);
    Chunk(HeaderFor(o, end == |o.payload|, end - offset), o.payload[offset..end])
  }

  function ChunksFrom(o: Outgoing, chunkSize: pos, offset: nat): seq<Chunk>
    decreases |o.payload| - offset
  {
    if offset >= |o.payload| then []
    else [ChunkAt(o, chunkSize, offset)] + ChunksFrom(o, chunkSize, EndOf(o, chunkSize, offset))
  }

  function ChunksOf(o: Outgoing, chunkSize: pos): seq<Chunk>
  {
    if o.payload == [] then [Chunk(HeaderFor(o, true, 0), [])] else ChunksFrom(o, chunkSize, 0)
  }

  /** Appends the wire form of `o` to `dst`. */
  method SplitIntoChunks(o: Outgoing, chunkSize: pos, dst: seq<byte>) returns (r: seq<byte>)
    ensures r == dst + Wire(ChunksOf(o, chunkSize))
  {
    r := dst;
    if o.payload == [] {
      WireEmpty(o, chunkSize);
      r := r + HeaderBytes(HeaderFor(o, true, 0));
      return;
    }
    ghost var goal := dst + Wire(ChunksOf(o, chunkSize));
    var offset := 0;
    while offset < |o.payload|
      invariant 0 <= offset <= |o.payload|
      invariant goal == r + Wire(ChunksFrom(o, chunkSize, offset))
    {
      var end := if offset + chunkSize <= |o.payload| then offset + chunkSize else |o.payload|;
      var chunk := o.payload[offset..end];
      var isLast := end == |o.payload|;
      var hdr := HeaderFor(o, isLast, |chunk|);
      assert Chunk(hdr, chunk) == ChunkAt(o, chunkSize, offset);
      WireStep(o, chunkSize, offset, r);
      r := r + HeaderBytes(hdr) + chunk;
      offset := end;
    }
    AppendEmpty(r);
  }

  lemma WireEmpty(o: Outgoing, chunkSize: pos)
    requires o.payload == []
    ensures Wire(ChunksOf(o, chunkSize)) == HeaderBytes(HeaderFor(o, true, 0))
  {
    assert ChunksOf(o, chunkSize)[1..] == [];
  }

  lemma WireStep(o: Outgoing, chunkSize: pos, offset: nat, r: seq<byte>)
    requires offset < |o.payload|
    ensures var c := ChunkAt(o, chunkSize, offset);
            r + Wire(ChunksFrom(o, chunkSize, offset))
            == r + HeaderBytes(c.header) + c.payload + Wire(ChunksFrom(o, chunkSize, EndOf(o, chunkSize, offset)))
  {
    var c, rest := ChunkAt(o, chunkSize, offset), ChunksFrom(o, chunkSize, EndOf(o, chunkSize, offset));
    WireCons(c, rest, []);
    AppendAssoc(r, HeaderBytes(c.header), c.payload);
    AppendAssoc(r, ChunkBytes(c), Wire(rest));
  }

  /** The predicted number of chunks. */
  function ChunkCount(payloadLen: nat, chunkSize: nat): nat {
    if payloadLen == 0 || chunkSize == 0 then 1 else (payloadLen + chunkSize - 1) / chunkSize
  }

  lemma {:induction false} ChunksFromCount(o: Outgoing, chunkSize: pos, offset: nat)
    requires offset <= |o.payload|
    ensures |ChunksFrom(o, chunkSize, offset)| == (|o.payload| - offset + chunkSize - 1) / chunkSize
    decreases |o.payload| - offset
  {
    var left := |o.payload| - offset;
    if left == 0 {
      DivModUnique(chunkSize - 1, chunkSize, 0, chunkSize - 1);
    } else {
      DivAddOne(left - 1, chunkSize);
      var end := EndOf(o, chunkSize, offset);
      ChunksFromCount(o, chunkSize, end);
      if left > chunkSize {
        assert |o.payload| - end + chunkSize - 1 == left - 1;
      } else {
        DivModUnique(left - 1, chunkSize, 0, left - 1);
        DivModUnique(chunkSize - 1, chunkSize, 0, chunkSize - 1);
      }
      assert left - 1 + chunkSize == left + chunkSize - 1;
    }
  }

  /** `chunk_count` agrees with what the splitter produces, for every positive chunk size, and answers
      one for the chunk size zero. */
  lemma ChunkCountIsExact(o: Outgoing, chunkSize: pos)
    ensures |ChunksOf(o, chunkSize)| == ChunkCount(|o.payload|, chunkSize) && ChunkCount(|o.payload|, 0) == 1
  {
    ChunksFromCount(o, chunkSize, 0);
  }

  // ----- The chunks one by one -----

  lemma NextOffset(size: pos, offset: nat, k: nat)
    requires k > 0
    ensures offset + k * size == offset + size + (k - 1) * size && offset + size <= offset + k * size
  {
    MulMono(1, k, size);
  }

  lemma {:induction false} ChunkFromAt(o: Outgoing, chunkSize: pos, offset: nat, k: nat)
    requires k < |ChunksFrom(o, chunkSize, offset)|
    ensures offset + k * chunkSize < |o.payload|
    ensures ChunksFrom(o, chunkSize, offset)[k] == ChunkAt(o, chunkSize, offset + k * chunkSize)
    ensures k == |ChunksFrom(o, chunkSize, offset)| - 1 <==> |o.payload| <= offset + k * chunkSize + chunkSize
    decreases k
  {
    hide ChunkAt;
    var end := EndOf(o, chunkSize, offset);
    if k > 0 {
      NextOffset(chunkSize, offset, k);
      ChunkFromAt(o, chunkSize, end, k - 1);
    } else if end < |o.payload| {
      assert ChunksFrom(o, chunkSize, end) != [];
    }
  }

  /** Chunk `k` carries the bytes of the message from `k * chunkSize` on, `chunkSize` of them or what is
      left, under the message's stream, type and timestamp; the last chunk alone adds the flag 2. An
      empty message is one empty chunk. */
  lemma ChunkByIndex(o: Outgoing, chunkSize: pos, k: nat)
    requires k < |ChunksOf(o, chunkSize)|
    ensures var c, from := ChunksOf(o, chunkSize)[k], k * chunkSize;
            var last := k == |ChunksOf(o, chunkSize)| - 1;
            && from <= |o.payload| && (o.payload != [] ==> from < |o.payload|)
            && (last <==> |o.payload| <= from + chunkSize)
            && c.payload == o.payload[from..if last then |o.payload| else from + chunkSize]
            && c.header.streamId == o.streamId && TryFrom(c.header.msgType) == Some(o.msgType)
            && c.header.flags == (if last then o.extraFlags | 2 else o.extraFlags)
            && c.header.payloadLen == |c.payload| % 0x1_0000_0000 && c.header.timestampNs == o.timestampNs
  {
    hide ChunksFrom, TryFrom;
    CodeNames(o.msgType);
    if o.payload != [] {
      ChunkFromAt(o, chunkSize, 0, k);
    }
  }

  lemma CodeNames(t: MsgType)
    ensures TryFrom(Code(t)) == Some(t)
  {}

  // ----- Round trip -----

  function LastLen(len: nat, chunkSize: pos): nat
  {
    if len <= chunkSize then len else LastLen(len - chunkSize, chunkSize)
  }

  /** The last chunk is never empty unless the message is. */
  lemma {:induction false} LastLenClosed(len: pos, chunkSize: pos)
    ensures LastLen(len, chunkSize) == (len - 1) % chunkSize + 1
  {
    if len <= chunkSize {
      DivModUnique(len - 1, chunkSize, 0, len - 1);
    } else {
      LastLenClosed(len - chunkSize, chunkSize);
      DivAddOne(len - chunkSize - 1, chunkSize);
      assert len - chunkSize - 1 + chunkSize == len - 1;
    }
  }

  /** What the receiver should see of `o`: its whole payload under the last chunk's header. */
  function Delivered(o: Outgoing, chunkSize: pos): (m: Message)
    ensures m.payload == o.payload && m.header.streamId == o.streamId && m.header.timestampNs == o.timestampNs
    ensures TryFrom(m.header.msgType) == Some(o.msgType) && m.header.IsLast()
  {
    LastFlag(o.extraFlags);
    Message(HeaderFor(o, true, LastLen(|o.payload|, chunkSize)), o.payload)
  }

  lemma {:induction false} LastFrom(o: Outgoing, chunkSize: pos, offset: nat)
    requires offset < |o.payload|
    ensures var w := ChunksFrom(o, chunkSize, offset);
            w != [] && w[|w| - 1].header == HeaderFor(o, true, LastLen(|o.payload| - offset, chunkSize))
    decreases |o.payload| - offset
  {
    var end := EndOf(o, chunkSize, offset);
    if end < |o.payload| {
      LastFrom(o, chunkSize, end);
    }
  }

  /** The header the receiver reports is the header of the last chunk sent. */
  lemma HeaderIsLastChunks(o: Outgoing, chunkSize: pos)
    ensures var w := ChunksOf(o, chunkSize);
            w != [] && Delivered(o, chunkSize).header == w[|w| - 1].header
  {
    if o.payload != [] {
      LastFrom(o, chunkSize, 0);
    }
  }

  predicate NoLast(o: Outgoing) {
    o.extraFlags & LAST_CHUNK == 0
  }

  lemma LastFlag(flags: byte)
    ensures (flags | LAST_CHUNK) & LAST_CHUNK != 0
  {}

  lemma {:induction false} ChunksFromValid(o: Outgoing, chunkSize: pos, offset: nat)
    requires (chunkSize <= MAX_PAYLOAD_LEN || |o.payload| <= offset + MAX_PAYLOAD_LEN)
    ensures ValidChunks(ChunksFrom(o, chunkSize, offset))
    decreases |o.payload| - offset
  {
    if offset < |o.payload| {
      var end := if offset + chunkSize <= |o.payload| then offset + chunkSize else |o.payload|;
      ChunksFromValid(o, chunkSize, end);
    }
  }

  lemma {:induction false} ChunksFromReassemble(o: Outgoing, chunkSize: pos, offset: nat, chunks: ChunkMap)
    requires NoLast(o) && offset < |o.payload|
    ensures var head := HeaderFor(o, true, LastLen(|o.payload| - offset, chunkSize));
            Reassemble(chunks, ChunksFrom(o, chunkSize, offset))
            == (chunks - {o.streamId}, [Message(head, Pending(chunks, o.streamId) + o.payload[offset..])])
    decreases |o.payload| - offset
  {
    var c, end := ChunkAt(o, chunkSize, offset), EndOf(o, chunkSize, offset);
    var w, more := ChunksFrom(o, chunkSize, offset), ChunksFrom(o, chunkSize, end);
    assert w[0] == c && w[1..] == more;
    FastPathAgrees(chunks, c);
    LastFlag(o.extraFlags);
    var acc := Pending(chunks, o.streamId);
    if end < |o.payload| {
      var mid := chunks[o.streamId := acc + c.payload];
      assert Accept(chunks, c) == (mid, []);
      ChunksFromReassemble(o, chunkSize, end, mid);
      assert mid - {o.streamId} == chunks - {o.streamId};
      assert (acc + c.payload) + o.payload[end..] == acc + o.payload[offset..];
      assert [] + Reassemble(mid, more).1 == Reassemble(mid, more).1;
    } else {
      assert o.payload[offset..end] == o.payload[offset..];
      assert more == [] && Accept(chunks, c).1 + [] == Accept(chunks, c).1;
    }
  }

  lemma ChunksOfReassemble(o: Outgoing, chunkSize: pos, chunks: ChunkMap)
    requires NoLast(o) && o.streamId !in chunks
    ensures Reassemble(chunks, ChunksOf(o, chunkSize)) == (chunks, [Delivered(o, chunkSize)])
  {
    assert chunks - {o.streamId} == chunks;
    if o.payload == [] {
      var c := ChunksOf(o, chunkSize)[0];
      LastFlag(o.extraFlags);
      FastPathAgrees(chunks, c);
      assert ChunksOf(o, chunkSize)[1..] == [] && [] + c.payload == c.payload;
      assert Accept(chunks, c).1 + [] == Accept(chunks, c).1;
    } else {
      ChunksFromReassemble(o, chunkSize, 0, chunks);
      assert [] + o.payload[0..] == o.payload;
    }
  }

  /** A message and the chunk size it is sent with. */
  datatype Sent = Sent(msg: Outgoing, chunkSize: pos)

  predicate Sendable(s: Sent) {
    s.chunkSize <= MAX_PAYLOAD_LEN && NoLast(s.msg)
  }

  function AllChunks(list: seq<Sent>): seq<Chunk>
  {
    if list == [] then [] else ChunksOf(list[0].msg, list[0].chunkSize) + AllChunks(list[1..])
  }

  function AllDelivered(list: seq<Sent>): (r: seq<Message>)
    ensures |r| == |list|
    ensures forall i :: 0 <= i < |list| ==> r[i] == Delivered(list[i].msg, list[i].chunkSize)
  {
    if list == [] then [] else [Delivered(list[0].msg, list[0].chunkSize)] + AllDelivered(list[1..])
  }

  lemma {:induction false} AllChunksReassemble(list: seq<Sent>, chunks: ChunkMap)
    requires forall s <- list :: Sendable(s) && s.msg.streamId !in chunks
    ensures ValidChunks(AllChunks(list))
    ensures Reassemble(chunks, AllChunks(list)) == (chunks, AllDelivered(list))
    decreases |list|
  {
    if list != [] {
      var s := list[0];
      assert Sendable(s);
      var first, rest := ChunksOf(s.msg, s.chunkSize), AllChunks(list[1..]);
      assert ValidChunks(rest) && Reassemble(chunks, rest) == (chunks, AllDelivered(list[1..])) by {
        AllChunksReassemble(list[1..], chunks);
      }
      assert ValidChunks(first) by { ChunksFromValid(s.msg, s.chunkSize, 0); }
      assert Reassemble(chunks, first) == (chunks, [Delivered(s.msg, s.chunkSize)]) by {
        ChunksOfReassemble(s.msg, s.chunkSize, chunks);
      }
      ReassembleConcat(chunks, first, rest);
    }
  }

  lemma {:induction false} AllChunksConcat(a: seq<Sent>, b: seq<Sent>)
    ensures AllChunks(a + b) == AllChunks(a) + AllChunks(b)
    decreases |a|
  {
    if a == [] {
      AppendEmpty(b);
      AppendEmpty(AllChunks(b));
    } else {
      assert (a + b)[1..] == a[1..] + b;
      AllChunksConcat(a[1..], b);
      AppendAssoc(ChunksOf(a[0].msg, a[0].chunkSize), AllChunks(a[1..]), AllChunks(b));
    }
  }

  lemma AllChunksOne(m: Sent)
    ensures AllChunks([m]) == ChunksOf(m.msg, m.chunkSize)
  {
    assert [m][1..] == [];
    AppendEmpty(ChunksOf(m.msg, m.chunkSize));
  }

  /** Main round trip: any list of messages, each split with its own chunk size, fed to a
      fresh parser in any fragmentation, comes out as exactly those payloads in order with
      stream, type and timestamp intact, and leaves no byte and no open stream behind. */
  lemma RoundTrip(list: seq<Sent>, frags: seq<seq<byte>>)
    requires forall s <- list :: Sendable(s)
    requires Concat(frags) == Wire(AllChunks(list))
    ensures PushAll(FreshParser, frags) == Drained(FreshParser, AllDelivered(list), None)
  {
    AllChunksReassemble(list, map[]);
    WireIsReassembled(AllChunks(list), frags);
  }
}
