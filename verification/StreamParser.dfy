/** The parser object of the transport: a byte buffer and a reassembly map. */
module StreamParsing {
  import opened Bytes
  import opened Header
  import Framing
  import Interleaving

  class StreamParser {
    var buf: seq<byte>
    /** In-progress payloads by stream id. */
    var chunks: map<u16, seq<byte>>
    /** Every chunk taken from the buffer so far. */
    ghost var consumed: seq<Framing.Chunk>

    ghost predicate Valid()
      reads this
    {
      chunks == Framing.Reassemble(map[], consumed).0
    }

    ghost function State(): Framing.Parser
      reads this
    {
      Framing.Parser(buf, chunks)
    }

    constructor ()
      ensures Valid() && State() == Framing.FreshParser && consumed == []
    {
      buf, chunks, consumed := [], map[], [];
    }

    /** Feed wire bytes. On success the completed messages come out; on an error they
        are lost, and the offending bytes stay at the front of the buffer. */
    method Push(data: seq<byte>) returns (r: Result<seq<Framing.Message>, Framing.FramingError>)
      requires Valid()
      modifies this
      ensures Valid() && consumed == old(consumed) + Framing.Scan(old(buf) + data).0
      ensures var d := Framing.Push(old(State()), data);
              && State() == d.parser
              && r == if d.error.Some? then Err(d.error.value) else Ok(d.out)
    {
      buf := buf + data;
      ghost var d := Framing.Drain(State());
      ghost var goal := consumed + Framing.Scan(buf).0;
      var out: seq<Framing.Message> := [];
      assert out + d.out == d.out;
      while HEADER_SIZE <= |buf|
        invariant d == Framing.Prepend(out, Framing.Drain(State()))
        invariant Valid() && goal == consumed + Framing.Scan(buf).0
        decreases |buf|
      {
        ghost var p := State();
        var hdr := ParseHeader(buf[..HEADER_SIZE]);
        if hdr.payloadLen > Framing.MAX_PAYLOAD_LEN {
          Framing.DrainEnd(p, out);
          AppendEmpty(consumed);
          return Err(Framing.PayloadTooLarge(hdr.payloadLen));
        }
        var total := HEADER_SIZE + hdr.payloadLen;
        if |buf| < total {
          break;
        }
        if TryFrom(hdr.msgType).None? {
          Framing.DrainEnd(p, out);
          AppendEmpty(consumed);
          return Err(Framing.UnknownMsgType(hdr.msgType));
        }
        var payload := buf[HEADER_SIZE..total];
        assert Framing.FrontOf(p.buf) == Framing.Complete(Framing.Chunk(hdr, payload));
        Framing.DrainStep(p, out);
        Framing.ScanStep(p.buf, consumed);
        buf := buf[total..];
        var msg := Reassemble(hdr, payload);
        out := out + if msg.Some? then [msg.value] else [];
      }
      Framing.DrainEnd(State(), out);
      AppendEmpty(consumed);
      return Ok(out);
    }

    method Reassemble(hdr: FrameHeader, payload: seq<byte>) returns (msg: Option<Framing.Message>)
      requires Valid()
      modifies this`chunks, this`consumed
      ensures Valid() && consumed == old(consumed) + [Framing.Chunk(hdr, payload)]
      ensures var (next, out) := Framing.Accept(old(chunks), Framing.Chunk(hdr, payload));
              && chunks == next
              && out == if msg.Some? then [msg.value] else []
    {
      Framing.ReassembleSnoc(map[], consumed, Framing.Chunk(hdr, payload));
      consumed := consumed + [Framing.Chunk(hdr, payload)];
      var id := hdr.streamId;
      if hdr.IsLast() && id !in chunks && |payload| == hdr.payloadLen {
        return Some(Framing.Message(hdr, payload));
      }
      if id !in chunks {
        chunks := chunks[id := []];
      }
      chunks := chunks[id := chunks[id] + payload];
      if hdr.IsLast() {
        var full := chunks[id];
        chunks := chunks - {id};
        return Some(Framing.Message(hdr, full));
      }
      return None;
    }

    /** The read loop: push what every read returns, stop at the first error. What comes out goes to
        the receiver's channel. */
    method ReadLoop(frags: seq<seq<byte>>) returns (out: seq<Framing.Message>, error: Option<Framing.FramingError>)
      requires Valid()
      modifies this
      ensures Valid()
      ensures Framing.PushAll(old(State()), frags) == Framing.Drained(State(), out, error)
    {
      out := [];
      var i := 0;
      ghost var goal := Framing.PushAll(State(), frags);
      assert frags[0..] == frags && out + goal.out == goal.out;
      while i < |frags|
        invariant i <= |frags| && Valid()
        invariant goal == Framing.Prepend(out, Framing.PushAll(State(), frags[i..]))
      {
        assert frags[i..][0] == frags[i] && frags[i..][1..] == frags[i + 1..];
        var r := Push(frags[i]);
        if r.Err? {
          AppendEmpty(out);
          return out, Some(r.error);
        }
        AppendAssoc(out, r.value, Framing.PushAll(State(), frags[i + 1..]).out);
        out := out + r.value;
        i := i + 1;
      }
      AppendEmpty(out);
      return out, None;
    }

    /** The number of streams whose latest chunk lacked LAST_CHUNK. */
    method InProgressStreams() returns (n: nat)
      requires Valid()
      ensures n == |set id: u16 | Interleaving.Open(consumed, id)|
    {
      Interleaving.InProgressIsOpen(consumed);
      n := |chunks|;
      assert n == |chunks.Keys|;
    }
  }
}
