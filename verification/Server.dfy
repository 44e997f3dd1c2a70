/** The server's compress-and-send loop: what it encodes over which base, and when the base moves. */
module Server {
  import opened Arith
  import opened Bytes
  import opened Delta
  import opened Stripes
  import opened FramePayload
  import opened DeltaCodec
  import opened Pipeline
  import opened Framing
  import opened ChunkSender
  import opened TransportQueues
  import opened Client
  import H = Header

  const ANCHOR_INTERVAL := 300
  const CHUNK_SIZE: pos := 65536
  const STREAM_ID: u16 := 1

  /** What is fixed for a session. `scale` is the downscaling filter, if there is one; `width`,
      `height` and `stride` describe the picture that is encoded, after scaling. */
  datatype Config = Config(codec: Codec, width: u32, height: u32, stride: u32, rawSize: nat,
                           scale: Option<seq<byte> -> seq<byte>>, threads: nat)

  function Size(cfg: Config): nat {
    cfg.stride * cfg.height
  }

  ghost predicate ValidConfig(cfg: Config) {
    && 4 * cfg.width <= cfg.stride && Size(cfg) < 0x1_0000_0000
    && Lossless(cfg.codec) && BlobsFit(cfg.codec, Size(cfg))
    && match cfg.scale
       case None => cfg.rawSize == Size(cfg)
       case Some(filter) => cfg.stride == 4 * cfg.width && forall x :: |x| == cfg.rawSize ==> |filter(x)| == Size(cfg)
  }

  /** Every frame size below 4 GiB makes a session, for one with the codec that copies. */
  lemma PlainSession(width: u32, height: u32, stride: u32, threads: nat)
    requires 4 * width <= stride && stride * height < 0x1_0000_0000
    ensures ValidConfig(Config(NoCompression(), width, height, stride, stride * height, None, threads))
  {
    var codec := NoCompression();
    forall x ensures codec.compress(x) == x && codec.decompress(codec.compress(x)) == Some(x) {}
  }

  /** A captured frame with the compositor's damage. */
  datatype Frame = Frame(data: seq<byte>, damage: seq<DamageRect>, timestampNs: u64)

  /** Frames as the capture ring holds them: of the session's size, damage inside the frame. */
  predicate WellFormed(cfg: Config, f: Frame) {
    && |f.data| == cfg.rawSize && |f.damage| < 0x1_0000_0000
    && (cfg.scale.None? ==> AllInFrame(f.damage, cfg.width, cfg.height))
  }

  function Picture(cfg: Config, f: Frame): seq<byte> {
    match cfg.scale
    case None => f.data
    case Some(filter) => filter(f.data)
  }

  datatype ServerState = ServerState(prev: seq<byte>, needFull: bool, isFirst: bool, count: nat)

  const InitialServer := ServerState([], false, true, 0)

  /** One loop iteration up to compression: what is about to be encoded, over which base. */
  datatype Draft = Draft(anchor: bool, regions: seq<DamageRect>, base: seq<byte>, picture: seq<byte>, timestampNs: u64)

  predicate ForceAnchor(s: ServerState) {
    s.isFirst || (s.count > 0 && s.count % ANCHOR_INTERVAL == 0)
  }

  /** `batch` is what the capture ring held, oldest first; only the newest frame is used, and then
      its damage is trusted only if nothing was skipped or dropped before it. */
  function DraftOf(cfg: Config, s: ServerState, batch: seq<Frame>, dropped: bool): Draft
    requires batch != []
  {
    var frame := batch[|batch| - 1];
    var picture := Picture(cfg, frame);
    var anchor := ForceAnchor(s);
    var full := anchor || frame.damage == [] || s.needFull || |batch| > 1 || dropped;
    Draft(anchor,
          if full || cfg.scale.Some? then StripesOf(cfg.width, cfg.height, cfg.threads) else frame.damage,
          if anchor then Bytes.Resize(s.prev, |picture|) else s.prev,
          picture, frame.timestampNs)
  }

  /** The encoder slices both frames within their bounds; otherwise it panics. */
  predicate Encodes(cfg: Config, d: Draft) {
    |d.picture| == |d.base| && Fit(SpansOf(cfg.stride, d.regions), |d.picture|)
  }

  function PayloadOf(cfg: Config, d: Draft): seq<byte>
    requires Encodes(cfg, d)
  {
    FitRegions(cfg.stride, d.regions, |d.picture|);
    Serialize(cfg.width, cfg.height, cfg.stride, d.regions,
              Compress(cfg.codec, d.picture, d.base, cfg.stride, d.regions))
  }

  function MessageOf(cfg: Config, d: Draft): Outgoing
    requires Encodes(cfg, d)
  {
    Outgoing(STREAM_ID, if d.anchor then H.AnchorFrame else H.FrameUpdate, H.COMPRESSED, PayloadOf(cfg, d), d.timestampNs)
  }

  /** The base advances only if the transport took the message. */
  function After(s: ServerState, d: Draft, sent: bool): ServerState {
    ServerState(if sent then d.picture else d.base, !sent, false, s.count + 1)
  }

  /** Where the message goes. */
  function Offer<T>(q: Queues<T>, anchor: bool, m: T): Queues<T> {
    if anchor then OfferAnchor(q, m) else OfferFrame(q, m)
  }

  predicate Accepts<T>(q: Queues<T>, anchor: bool) {
    if anchor then !q.closed else AcceptsFrame(q)
  }

  class CompressSendLoop {
    const cfg: Config
    const sender: TransportSender<seq<byte>>
    var previousFrame: seq<byte>
    var isFirst: bool
    var frameCount: nat
    var needFullDamage: bool

    constructor (cfg: Config, sender: TransportSender<seq<byte>>)
      ensures this.cfg == cfg && this.sender == sender && State() == InitialServer
    {
      this.cfg := cfg;
      this.sender := sender;
      previousFrame, isFirst, frameCount, needFullDamage := [], true, 0, false;
    }

    function State(): ServerState
      reads this
    {
      ServerState(previousFrame, needFullDamage, isFirst, frameCount)
    }

    /** Takes the newest frame of the ring. */
    method Drain(batch: seq<Frame>, dropped: bool) returns (frame: Frame)
      requires batch != []
      modifies this`needFullDamage
      ensures frame == batch[|batch| - 1]
      ensures needFullDamage == (old(needFullDamage) || |batch| > 1 || dropped)
    {
      frame := batch[0];
      var skipped := 0;
      while skipped + 1 < |batch|
        invariant 0 <= skipped < |batch| && frame == batch[skipped]
      {
        frame := batch[skipped + 1];
        skipped := skipped + 1;
      }
      if skipped > 0 {
        needFullDamage := true;
      }
      if dropped {
        needFullDamage := true;
      }
    }

    /** Everything up to compression: the newest frame, scaled; anchor or not; the regions; and the
        base, resized for an anchor. */
    method Prepare(batch: seq<Frame>, dropped: bool) returns (d: Draft)
      requires batch != []
      modifies this`needFullDamage, this`previousFrame
      ensures d == DraftOf(cfg, old(State()), batch, dropped) && previousFrame == d.base
    {
      hide StripesOf;
      var frame := Drain(batch, dropped);
      var picture := match cfg.scale
        case None => frame.data
        case Some(filter) => filter(frame.data);
      var forceAnchor := isFirst || (frameCount > 0 && frameCount % ANCHOR_INTERVAL == 0);
      var regions := frame.damage;
      if forceAnchor || frame.damage == [] || needFullDamage || cfg.scale.Some? {
        regions := StripeFullFrame(cfg.width, cfg.height, cfg.threads);
      }
      if forceAnchor {
        previousFrame := Bytes.Resize(previousFrame, |picture|);
      }
      d := Draft(forceAnchor, regions, previousFrame, picture, frame.timestampNs);
    }

    /** One iteration of the loop. The bytes handed to the transport are the chunked message. */
    method Iterate(batch: seq<Frame>, dropped: bool) returns (sent: bool)
      requires batch != [] && Encodes(cfg, DraftOf(cfg, State(), batch, dropped))
      modifies this, sender
      ensures var d := DraftOf(cfg, old(State()), batch, dropped);
              && sent == Accepts(old(sender.State()), d.anchor)
              && State() == After(old(State()), d, sent)
              && sender.State() == Offer(old(sender.State()), d.anchor, Wire(ChunksOf(MessageOf(cfg, d), CHUNK_SIZE)))
    {
      hide DraftOf, Encodes, MessageOf, Wire, ChunksOf, OfferAnchor, OfferFrame, AcceptsFrame;
      var d := Prepare(batch, dropped);
      var wire := EncodeMessage(d.anchor, d.regions, d.picture, d.timestampNs);
      if d.anchor {
        sent := sender.SendAnchor(wire);
      } else {
        sent := sender.TrySendFrame(wire);
      }
      if sent {
        previousFrame := d.picture;
        needFullDamage := false;
      } else {
        needFullDamage := true;
      }
      isFirst := false;
      frameCount := frameCount + 1;
    }

    /** Compress against the base, serialize, and split into chunks. */
    method EncodeMessage(anchor: bool, regions: seq<DamageRect>, picture: seq<byte>, timestampNs: u64)
      returns (wire: seq<byte>)
      requires Encodes(cfg, Draft(anchor, regions, previousFrame, picture, timestampNs))
      ensures wire == Wire(ChunksOf(MessageOf(cfg, Draft(anchor, regions, previousFrame, picture, timestampNs)), CHUNK_SIZE))
    {
      var compressed, _ := CompressFrameInto(cfg.codec, picture, previousFrame, cfg.stride, regions);
      var payload := SerializeFramePayload(cfg.width, cfg.height, cfg.stride, regions, compressed);
      wire := SplitIntoChunks(Outgoing(STREAM_ID, if anchor then H.AnchorFrame else H.FrameUpdate, H.COMPRESSED,
                                       payload, timestampNs), CHUNK_SIZE, []);
      AppendEmpty(Wire(ChunksOf(MessageOf(cfg, Draft(anchor, regions, previousFrame, picture, timestampNs)), CHUNK_SIZE)));
    }
  }

  // ----- What one message does to a base -----

  lemma RegionLenFits(r: DamageRect, width: nat, height: nat, stride: nat)
    requires InFrame(r, width, height) && 4 * width <= stride
    ensures RegionLen(r) <= stride * height
  {
    MulMono(r.width * 4, stride, r.height);
    MulMono(r.height, height, stride);
  }

  /** The regions fit the frame: the encoder does not panic, and the region table holds the sizes. */
  predicate RegionsOk(cfg: Config, d: Draft) {
    AllInFrame(d.regions, cfg.width, cfg.height) && |d.regions| < 0x1_0000_0000
  }

  lemma Encodable(cfg: Config, d: Draft)
    requires ValidConfig(cfg) && RegionsOk(cfg, d) && |d.picture| == |d.base| == Size(cfg)
    ensures Encodes(cfg, d)
  {
    SpansFit(cfg.stride, d.regions, 0, cfg.width, cfg.height);
  }

  function CompressedOf(cfg: Config, d: Draft): (c: CompressedFrame)
    requires Encodes(cfg, d)
    ensures |c.regionSizes| == |d.regions|
  {
    FitRegions(cfg.stride, d.regions, |d.picture|);
    Compress(cfg.codec, d.picture, d.base, cfg.stride, d.regions)
  }

  lemma PayloadParses(cfg: Config, d: Draft)
    requires ValidConfig(cfg) && RegionsOk(cfg, d) && Encodes(cfg, d) && |d.picture| == Size(cfg)
    ensures Deserialize(PayloadOf(cfg, d)) == Ok(Parsed(cfg.width, cfg.height, cfg.stride, d.regions, CompressedOf(cfg, d)))
  {
    hide Deserialize, Serialize, Compress, FramePayload.Encodable;
    forall j | 0 <= j < |d.regions| ensures RegionLen(d.regions[j]) <= Size(cfg) {
      RegionLenFits(d.regions[j], cfg.width, cfg.height, cfg.stride);
    }
    FitRegions(cfg.stride, d.regions, |d.picture|);
    CompressEncodable(cfg.codec, d.picture, d.base, cfg.stride, d.regions, Size(cfg));
    SerializeRoundTrip(cfg.width, cfg.height, cfg.stride, d.regions, CompressedOf(cfg, d));
  }

  /** Every payload the server emits decodes over any base of the session's size. */
  lemma PayloadDecodable(cfg: Config, d: Draft)
    requires ValidConfig(cfg) && RegionsOk(cfg, d) && Encodes(cfg, d) && |d.picture| == Size(cfg)
    ensures Decodable(cfg.codec, PayloadOf(cfg, d), Size(cfg))
    ensures Mask(cfg.codec, PayloadOf(cfg, d), Size(cfg))
            == Decode(Encode(d.picture, d.base, cfg.stride, d.regions), Zeros(Size(cfg)), cfg.stride, d.regions)
  {
    hide PayloadOf, Decompress, Decode, Encode, Deserialize, Compress, Lossless;
    PayloadParses(cfg, d);
    CompressRoundTrip(cfg.codec, d.picture, d.base, Zeros(Size(cfg)), cfg.stride, d.regions);
  }

  /** What a payload flips is the XOR of picture and base inside its regions, and nothing outside. */
  lemma PayloadFlips(cfg: Config, d: Draft, i: nat)
    requires ValidConfig(cfg) && RegionsOk(cfg, d) && Encodes(cfg, d) && |d.picture| == Size(cfg) && i < Size(cfg)
    ensures Decodable(cfg.codec, PayloadOf(cfg, d), Size(cfg))
    ensures Mask(cfg.codec, PayloadOf(cfg, d), Size(cfg))[i]
            == if Covered(SpansOf(cfg.stride, d.regions), i) then d.picture[i] ^ d.base[i] else 0
  {
    hide PayloadOf, Decode, Encode, Decodable, Mask;
    PayloadDecodable(cfg, d);
    DecodeEncode(d.picture, d.base, Zeros(Size(cfg)), cfg.stride, d.regions);
  }

  // ----- A diverged client and an anchor -----

  /** A session of one pixel, and its first anchor. */
  function OnePixel(): Config {
    Config(NoCompression(), 1, 1, 4, 4, None, 1)
  }

  function FirstAnchor(): Draft {
    DraftOf(OnePixel(), InitialServer, [Frame([10, 20, 30, 255], [], 0)], false)
  }

  lemma FirstAnchorFlips()
    ensures ValidConfig(OnePixel()) && Encodes(OnePixel(), FirstAnchor())
    ensures var payload := PayloadOf(OnePixel(), FirstAnchor());
            Decodable(NoCompression(), payload, 4) && Mask(NoCompression(), payload, 4) == [10, 20, 30, 255]
  {
    hide PayloadOf, Decodable, Mask, StripesOf, Covered;
    var cfg, d := OnePixel(), FirstAnchor();
    PlainSession(1, 1, 4, 1);
    StripesShape(1, 1, 1);
    assert d == Draft(true, StripesOf(1, 1, 1), [0, 0, 0, 0], [10, 20, 30, 255], 0);
    Encodable(cfg, d);
    PayloadDecodable(cfg, d);
    var mask := Mask(cfg.codec, PayloadOf(cfg, d), 4);
    forall i: nat | i < 4 ensures mask[i] == d.picture[i] {
      PayloadFlips(cfg, d, i);
      StripesCover(4, 1, 1, 1, 0, i);
      ZeroFlips(d.picture[i]);
    }
  }

  lemma ZeroFlips(p: byte)
    ensures p ^ 0 == p
  {}

  /** The first anchor of that session shows its picture on a fresh client, and something else on a
      client whose base was off by one bit: the anchor leaves the two apart. */
  lemma AnchorLeavesApart()
    ensures Encodes(OnePixel(), FirstAnchor())
    ensures var payload := PayloadOf(OnePixel(), FirstAnchor());
            && ReceiveFrame(NoCompression(), InitialClient, true, payload).1 == Shown([10, 20, 30, 255])
            && ReceiveFrame(NoCompression(), ClientState([1, 0, 0, 0], true), true, payload).1 == Shown([11, 20, 30, 255])
  {
    hide PayloadOf, Decodable, Mask, ReceiveFrame, FirstAnchor, Encodes, ValidConfig;
    FirstAnchorFlips();
    var payload := PayloadOf(OnePixel(), FirstAnchor());
    FrameFlipsMask(NoCompression(), InitialClient, true, payload, 4);
    FrameFlipsMask(NoCompression(), ClientState([1, 0, 0, 0], true), true, payload, 4);
    PixelXors();
  }

  lemma PixelXors()
    ensures Xor(Bytes.Resize([], 4), [10, 20, 30, 255]) == [10, 20, 30, 255]
    ensures Xor([1, 0, 0, 0], [10, 20, 30, 255]) == [11, 20, 30, 255]
  {
    assert Bytes.Resize([], 4) == [0, 0, 0, 0];
  }
}
