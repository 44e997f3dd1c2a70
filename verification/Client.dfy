/** The client's receive loop: its delta base and what each message does to it. */
module Client {
  import opened Bytes
  import opened Delta
  import opened FramePayload
  import opened Pipeline
  import opened Framing
  import H = Header

  const RESIZE_PAYLOAD_SIZE := 12

  datatype ClientState = ClientState(prev: seq<byte>, hasPrevious: bool)

  const InitialClient := ClientState([], false)

  /** What one message made the loop do; `Crashed` stands for the index panic of the decoder. */
  datatype Outcome = Shown(frame: seq<byte>) | Skipped | Crashed

  /** `stride * height` in 32-bit arithmetic. */
  function FrameSize(p: Parsed): nat {
    (p.stride * p.height) % 0x1_0000_0000
  }

  /** The base a frame message is decoded over. An anchor resizes the base but keeps its bytes. */
  function BaseFor(c: ClientState, anchor: bool, size: nat): seq<byte> {
    if anchor || !c.hasPrevious then Bytes.Resize(c.prev, size) else c.prev
  }

  function ReceiveFrame(codec: Codec, c: ClientState, anchor: bool, payload: seq<byte>): (ClientState, Outcome) {
    match Deserialize(payload)
    case Err(_) => (c, Skipped)
    case Ok(p) =>
      DeserializedIsTiled(payload);
      var base := BaseFor(c, anchor, FrameSize(p));
      match Decompress(codec, p.compressed, base, p.stride, p.regions)
      case Ok(frame) => (ClientState(frame, true), Shown(frame))
      case Err(CodecFailed) => (c.(prev := base), Skipped)
      case Err(OutOfBounds) => (c.(prev := base), Crashed)
  }

  function Receive(codec: Codec, c: ClientState, msg: Message): (ClientState, Outcome) {
    match H.TryFrom(msg.header.msgType)
    case Some(AnchorFrame) => ReceiveFrame(codec, c, true, msg.payload)
    case Some(FrameUpdate) => ReceiveFrame(codec, c, false, msg.payload)
    case Some(Resize) => (if |msg.payload| >= RESIZE_PAYLOAD_SIZE then c.(hasPrevious := false) else c, Skipped)
    case _ => (c, Skipped)
  }

  /** The loop over a list of messages; it stops at a crash. */
  function ReceiveAll(codec: Codec, c: ClientState, msgs: seq<Message>): (ClientState, Option<Outcome>)
    decreases |msgs|
  {
    if msgs == [] then (c, None)
    else
      var (next, outcome) := Receive(codec, c, msgs[0]);
      if outcome.Crashed? then (next, Some(outcome)) else ReceiveAll(codec, next, msgs[1..])
  }

  class ReceiveLoop {
    const codec: Codec
    var previousFrame: seq<byte>
    var hasPrevious: bool

    constructor (codec: Codec)
      ensures this.codec == codec && State() == InitialClient
    {
      this.codec := codec;
      previousFrame := [];
      hasPrevious := false;
    }

    function State(): ClientState
      reads this
    {
      ClientState(previousFrame, hasPrevious)
    }

    method OnFrame(isAnchor: bool, payload: seq<byte>) returns (outcome: Outcome)
      modifies this
      ensures (State(), outcome) == ReceiveFrame(codec, old(State()), isAnchor, payload)
    {
      var parsed := DeserializeFramePayload(payload);
      if parsed.Err? {
        return Skipped;
      }
      var p := parsed.value;
      DeserializedIsTiled(payload);
      var frameSize := (p.stride * p.height) % 0x1_0000_0000;
      if isAnchor || !hasPrevious {
        previousFrame := Bytes.Resize(previousFrame, frameSize);
      }
      var output := DecompressFrameInto(codec, p.compressed, previousFrame, p.stride, p.regions);
      if output.Err? {
        return if output.error == OutOfBounds then Crashed else Skipped;
      }
      previousFrame := output.value;
      hasPrevious := true;
      return Shown(output.value);
    }

    method OnMessage(msg: Message) returns (outcome: Outcome)
      modifies this
      ensures (State(), outcome) == Receive(codec, old(State()), msg)
    {
      var t := H.TryFrom(msg.header.msgType);
      if t == Some(H.AnchorFrame) || t == Some(H.FrameUpdate) {
        outcome := OnFrame(t == Some(H.AnchorFrame), msg.payload);
      } else {
        if t == Some(H.Resize) && |msg.payload| >= RESIZE_PAYLOAD_SIZE {
          hasPrevious := false;
        }
        outcome := Skipped;
      }
    }

    /** The loop over everything that arrives; a crash ends it. */
    method Loop(msgs: seq<Message>) returns (crash: Option<Outcome>)
      modifies this
      ensures (State(), crash) == ReceiveAll(codec, old(State()), msgs)
    {
      var i := 0;
      assert msgs[0..] == msgs;
      while i < |msgs|
        invariant i <= |msgs| && ReceiveAll(codec, State(), msgs[i..]) == ReceiveAll(codec, old(State()), msgs)
      {
        assert msgs[i..][0] == msgs[i] && msgs[i..][1..] == msgs[i + 1..];
        var outcome := OnMessage(msgs[i]);
        if outcome.Crashed? {
          return Some(outcome);
        }
        i := i + 1;
      }
      return None;
    }
  }

  // ----- A decodable payload flips fixed bits of whatever base it meets -----

  /** The payload decodes over every base of `n` bytes. */
  predicate Decodable(codec: Codec, payload: seq<byte>, n: nat) {
    match Deserialize(payload)
    case Err(_) => false
    case Ok(p) =>
      DeserializedIsTiled(payload);
      FrameSize(p) == n && Decompress(codec, p.compressed, Zeros(n), p.stride, p.regions).Ok?
  }

  /** The bits the payload flips: what it decodes to over an all-zero base. */
  function Mask(codec: Codec, payload: seq<byte>, n: nat): (r: seq<byte>)
    requires Decodable(codec, payload, n)
    ensures |r| == n
  {
    DeserializedIsTiled(payload);
    var p := Deserialize(payload).value;
    Decompress(codec, p.compressed, Zeros(n), p.stride, p.regions).value
  }

  lemma DecompressLinear(codec: Codec, c: CompressedFrame, base: seq<byte>, stride: nat, rects: seq<DamageRect>)
    requires Tiled(c) && |rects| == |c.regionSizes|
    requires Decompress(codec, c, Zeros(|base|), stride, rects).Ok?
    ensures Decompress(codec, c, base, stride, rects)
            == Ok(Xor(base, Decompress(codec, c, Zeros(|base|), stride, rects).value))
  {
    DecodeLinear(DecodedUpTo(codec, c, |rects|).value, base, stride, rects);
  }

  /** Whether it is an anchor or not, a decodable payload of the session's frame size turns the
      base into `base XOR mask`, and is shown. In particular an anchor does not erase a base
      that differs from the server's. */
  lemma FrameFlipsMask(codec: Codec, c: ClientState, anchor: bool, payload: seq<byte>, n: nat)
    requires Decodable(codec, payload, n) && (c.hasPrevious ==> |c.prev| == n)
    ensures var frame := Xor(Bytes.Resize(c.prev, n), Mask(codec, payload, n));
            ReceiveFrame(codec, c, anchor, payload) == (ClientState(frame, true), Shown(frame))
  {
    DeserializedIsTiled(payload);
    var p := Deserialize(payload).value;
    DecompressLinear(codec, p.compressed, Bytes.Resize(c.prev, n), p.stride, p.regions);
  }

  lemma XorInjective(a: seq<byte>, b: seq<byte>, mask: seq<byte>)
    requires |a| == |b| == |mask|
    ensures Xor(a, mask) == Xor(b, mask) <==> a == b
  {
    if Xor(a, mask) == Xor(b, mask) {
      forall i | 0 <= i < |a| ensures a[i] == b[i] {
        assert Xor(a, mask)[i] == Xor(b, mask)[i];
        XorCancels(a[i], mask[i]);
        XorCancels(b[i], mask[i]);
      }
    }
  }

  /** Two clients that receive the same anchor show the same picture exactly when their bases
      agreed before it: an anchor alone does not resynchronise a client that had diverged. */
  lemma AnchorResyncsExactly(codec: Codec, a: ClientState, b: ClientState, payload: seq<byte>, n: nat)
    requires Decodable(codec, payload, n) && (a.hasPrevious ==> |a.prev| == n) && (b.hasPrevious ==> |b.prev| == n)
    ensures ReceiveFrame(codec, a, true, payload).1 == ReceiveFrame(codec, b, true, payload).1
       <==> Bytes.Resize(a.prev, n) == Bytes.Resize(b.prev, n)
  {
    FrameFlipsMask(codec, a, true, payload, n);
    FrameFlipsMask(codec, b, true, payload, n);
    XorInjective(Bytes.Resize(a.prev, n), Bytes.Resize(b.prev, n), Mask(codec, payload, n));
  }

  // ----- What a message can change at all -----

  /** The type byte decides: 1 is an anchor, 0 a frame, 6 a resize, which drops `hasPrevious` if it is
      long enough and keeps the base; nothing else touches the state. */
  lemma ReceiveByType(codec: Codec, c: ClientState, msg: Message)
    ensures msg.header.msgType == 1 ==> Receive(codec, c, msg) == ReceiveFrame(codec, c, true, msg.payload)
    ensures msg.header.msgType == 0 ==> Receive(codec, c, msg) == ReceiveFrame(codec, c, false, msg.payload)
    ensures msg.header.msgType == 6 ==>
              Receive(codec, c, msg) == (ClientState(c.prev, c.hasPrevious && |msg.payload| < 12), Skipped)
    ensures msg.header.msgType != 0 && msg.header.msgType != 1 && msg.header.msgType != 6 ==>
              Receive(codec, c, msg) == (c, Skipped)
  {
    hide ReceiveFrame;
    H.TypeBytes();
  }

  /** A payload that does not parse changes nothing. One that does leaves a base of its own frame size if
      it is an anchor or the first frame, and of the former size otherwise; it changes no byte outside
      its rectangles, none at all unless it is shown, and what is shown is the new base. */
  lemma FrameChanges(codec: Codec, c: ClientState, anchor: bool, payload: seq<byte>)
    ensures var (d, outcome) := ReceiveFrame(codec, c, anchor, payload);
            && (Deserialize(payload).Err? ==> d == c && outcome == Skipped)
            && (outcome.Shown? ==> outcome.frame == d.prev)
            && d.hasPrevious == (c.hasPrevious || outcome.Shown?)
    ensures Deserialize(payload).Ok? ==>
              var d, p := ReceiveFrame(codec, c, anchor, payload).0, Deserialize(payload).value;
              && |d.prev| == (if anchor || !c.hasPrevious then p.stride * p.height % 0x1_0000_0000 else |c.prev|)
              && forall i :: 0 <= i < |d.prev| &&
                   (!Covered(SpansOf(p.stride, p.regions), i) || !ReceiveFrame(codec, c, anchor, payload).1.Shown?)
                   ==> d.prev[i] == if i < |c.prev| then c.prev[i] else 0
  {
    hide Decompress, SpansOf;
    if Deserialize(payload).Ok? {
      DeserializedIsTiled(payload);
      var p := Deserialize(payload).value;
      DecompressExactly(codec, p.compressed, BaseFor(c, anchor, FrameSize(p)), p.stride, p.regions);
    }
  }

  /** The client crashes exactly if all blobs decompress and a rectangle reaches outside the base or the
      blobs are too short for it; it skips exactly what does not parse or decompress. */
  lemma FrameOutcome(codec: Codec, c: ClientState, anchor: bool, payload: seq<byte>)
    requires Deserialize(payload).Ok?
    ensures var p, outcome := Deserialize(payload).value, ReceiveFrame(codec, c, anchor, payload).1;
            var n := if anchor || !c.hasPrevious then p.stride * p.height % 0x1_0000_0000 else |c.prev|;
            && Tiled(p.compressed) && |p.regions| == |p.compressed.regionSizes|
            && var fails := SomeBlobFails(codec, p.compressed, |p.regions|);
            && (outcome == Skipped <==> fails)
            && (outcome == Crashed <==>
                  !fails && (!Reach(SpansOf(p.stride, p.regions), n)
                             || DecodedLength(codec, p.compressed, |p.regions|) < Total(SpansOf(p.stride, p.regions))))
  {
    hide Decompress, SpansOf, SomeBlobFails;
    DeserializedIsTiled(payload);
    var p := Deserialize(payload).value;
    DecompressExactly(codec, p.compressed, BaseFor(c, anchor, FrameSize(p)), p.stride, p.regions);
  }
}
