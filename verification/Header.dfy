/** The fixed 16-byte header that precedes every chunk on the wire. */
module Header {
  import opened Bytes

  datatype MsgType =
    | FrameUpdate
    | AnchorFrame
    | InputEvent
    | CursorMove
    | Handshake
    | Ack
    | Resize
    | Clipboard
    | TargetResolution

  const COMPRESSED: byte := 1
  const LAST_CHUNK: byte := 2

  const HEADER_SIZE := 16

  /** The discriminant byte of a message type. */
  function Code(t: MsgType): byte {
    match t
    case FrameUpdate => 0
    case AnchorFrame => 1
    case InputEvent => 2
    case CursorMove => 3
    case Handshake => 4
    case Ack => 5
    case Resize => 6
    case Clipboard => 7
    case TargetResolution => 8
  }

  /** The inverse of `Code`, refusing every byte above 8. */
  function TryFrom(v: byte): (r: Option<MsgType>)
    ensures r.Some? <==> v <= 8
    ensures r.Some? ==> Code(r.value) == v
  {
    match v
    case 0 => Some(FrameUpdate)
    case 1 => Some(AnchorFrame)
    case 2 => Some(InputEvent)
    case 3 => Some(CursorMove)
    case 4 => Some(Handshake)
    case 5 => Some(Ack)
    case 6 => Some(Resize)
    case 7 => Some(Clipboard)
    case 8 => Some(TargetResolution)
    case _ => None
  }

  datatype FrameHeader = FrameHeader(streamId: u16, msgType: byte, flags: byte, payloadLen: u32, timestampNs: u64) {
    predicate IsLast() {
      flags & LAST_CHUNK != 0
    }
  }

  function HeaderBytes(h: FrameHeader): (r: seq<byte>)
    ensures |r| == HEADER_SIZE
  {
    ToLE(h.streamId, 2) + [h.msgType] + [h.flags] + ToLE(h.payloadLen, 4) + ToLE(h.timestampNs, 8)
  }

  /** The record view of sixteen wire bytes; every byte pattern is a header. */
  function ParseHeader(b: seq<byte>): FrameHeader
    requires |b| == HEADER_SIZE
  {
    ToFromLE(b[0..2]); ToFromLE(b[4..8]); ToFromLE(b[8..16]); Pow256Widths();
    FrameHeader(FromLE(b[0..2]), b[2], b[3], FromLE(b[4..8]), FromLE(b[8..16]))
  }

  lemma HeaderRoundTrip(h: FrameHeader)
    ensures ParseHeader(HeaderBytes(h)) == h
  {
    Pow256Widths();
    var b := HeaderBytes(h);
    FromToLE(h.streamId, 2); FromToLE(h.payloadLen, 4); FromToLE(h.timestampNs, 8);
    assert b[0..2] == ToLE(h.streamId, 2);
    assert b[4..8] == ToLE(h.payloadLen, 4);
    assert b[8..16] == ToLE(h.timestampNs, 8);
  }

  lemma HeaderBytesRoundTrip(b: seq<byte>)
    requires |b| == HEADER_SIZE
    ensures HeaderBytes(ParseHeader(b)) == b
  {
    ToFromLE(b[0..2]); ToFromLE(b[4..8]); ToFromLE(b[8..16]);
    assert b == b[0..2] + [b[2]] + [b[3]] + b[4..8] + b[8..16];
  }

  // ----- The layout on the wire -----

  /** The type bytes of the protocol. */
  lemma TypeBytes()
    ensures TryFrom(0) == Some(FrameUpdate) && TryFrom(1) == Some(AnchorFrame) && TryFrom(2) == Some(InputEvent)
    ensures TryFrom(3) == Some(CursorMove) && TryFrom(4) == Some(Handshake) && TryFrom(5) == Some(Ack)
    ensures TryFrom(6) == Some(Resize) && TryFrom(7) == Some(Clipboard) && TryFrom(8) == Some(TargetResolution)
  {}

  /** `b` holds `h`: stream in bytes 0 and 1, type in byte 2, flags in byte 3, length in bytes 4 to 7
      and timestamp in bytes 8 to 15, the integers least significant byte first. */
  predicate LaidOut(h: FrameHeader, b: seq<byte>)
    requires |b| == 16
  {
    && h.streamId == U16At(b, 0) && h.msgType == b[2] && h.flags == b[3]
    && h.payloadLen == U32At(b, 4) && h.timestampNs == U64At(b, 8)
  }

  /** What is read from sixteen bytes is what they hold; the flag 2 marks the last chunk. */
  lemma ParseLayout(b: seq<byte>)
    requires |b| == 16
    ensures LaidOut(ParseHeader(b), b) && (ParseHeader(b).IsLast() <==> b[3] & 2 != 0)
  {
    FromLE16(b, 0); FromLE32(b, 4); FromLE64(b, 8);
  }

  /** What is written for a header holds it. */
  lemma HeaderLayout(h: FrameHeader)
    ensures |HeaderBytes(h)| == 16 && LaidOut(h, HeaderBytes(h)) && (h.IsLast() <==> HeaderBytes(h)[3] & 2 != 0)
  {
    HeaderRoundTrip(h);
    ParseLayout(HeaderBytes(h));
  }
}
