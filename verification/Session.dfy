/** A whole session as a step system: frames popped from the capture ring, encoded and offered to
    the transport; the writer choosing what to hand to the pipe; the client decoding. */
module Session {
  import opened Bytes
  import opened Delta
  import opened Stripes
  import opened ChunkSender
  import opened Framing
  import opened TransportQueues
  import opened DeliveryOrder
  import opened Client
  import opened Server
  import H = Header

  /** An accepted frame message, with the picture it was encoded from. Its number is its place in
      the list of entries; packets refer to it by that number. */
  datatype Entry = Entry(picture: seq<byte>, msg: Outgoing)

  /** `popped` is the picture of the frame last taken from the ring, and `delivered` counts the
      packets the client has received; `fault` records a panic or an undecodable frame. */
  datatype System = System(server: ServerState, popped: Option<seq<byte>>, sent: seq<Entry>,
                           net: Queues<Packet>, delivered: nat, client: ClientState, fault: bool)

  const Initial := System(InitialServer, None, [], EmptyQueues(), 0, InitialClient, false)

  datatype Action =
    | Encode(batch: seq<Frame>, dropped: bool)
    | SendInput(input: Sent)
    | Poll
    | Deliver
    | Close

  /** What the receiver's parser makes of a packet; ChunkSender.RoundTrip justifies it. */
  function Arrival(sent: seq<Entry>, p: Packet): Message
    requires p.Video? ==> p.id < |sent|
  {
    match p
    case Video(id) => Delivered(sent[id].msg, CHUNK_SIZE)
    case Input(input) => Delivered(input.msg, input.chunkSize)
  }

  function EncodeStep(cfg: Config, s: System, batch: seq<Frame>, dropped: bool): System
    requires batch != []
  {
    var d := DraftOf(cfg, s.server, batch, dropped);
    if !Encodes(cfg, d) then s.(fault := true)
    else
      var ok := Accepts(s.net, d.anchor);
      s.(server := After(s.server, d, ok),
         popped := Some(d.picture),
         sent := if ok then s.sent + [Entry(d.picture, MessageOf(cfg, d))] else s.sent,
         net := Offer(s.net, d.anchor, Video(|s.sent|)))
  }

  function DeliverStep(cfg: Config, s: System): System {
    if s.delivered >= |s.net.written| then s
    else
      var p := s.net.written[s.delivered];
      if p.Video? && p.id >= |s.sent| then s.(fault := true)
      else
        var (client, outcome) := Receive(cfg.codec, s.client, Arrival(s.sent, p));
        s.(client := client,
           delivered := s.delivered + 1,
           fault := s.fault || outcome.Crashed? || (p.Video? && !outcome.Shown?))
  }

  function Step(cfg: Config, s: System, a: Action): System {
    match a
    case Encode(batch, dropped) => if batch == [] then s else EncodeStep(cfg, s, batch, dropped)
    case SendInput(input) => s.(net := OfferInput(s.net, Input(input)))
    case Poll => s.(net := TransportQueues.Poll(s.net))
    case Deliver => DeliverStep(cfg, s)
    case Close => s.(net := TransportQueues.Close(s.net))
  }

  // ----- What the environment is trusted with -----

  /** Byte `i` of the frame is byte column `c` of row `y`, and not row padding. */
  predicate IsAt(cfg: Config, y: nat, c: nat, i: nat) {
    y < cfg.height && c < 4 * cfg.width && i == y * cfg.stride + c
  }

  ghost predicate Visible(cfg: Config, i: nat) {
    exists y: nat, c: nat :: IsAt(cfg, y, c, i)
  }

  /** Two frames agree on every visible byte. */
  ghost predicate Agree(cfg: Config, a: seq<byte>, b: seq<byte>) {
    forall i: nat :: i < |a| && i < |b| && Visible(cfg, i) ==> a[i] == b[i]
  }

  /** The damage lists every visible difference from the frame popped before. */
  ghost predicate HonestDamage(cfg: Config, before: seq<byte>, f: Frame) {
    forall y: nat, c: nat, i: nat ::
      IsAt(cfg, y, c, i) && i < |before| && i < |f.data| && before[i] != f.data[i] ==> SomeRect(f.damage, y, c)
  }

  /** A frame popped alone, with no drop signalled, carries honest damage; nothing is assumed of
      the damage of any other frame. */
  ghost predicate Allowed(cfg: Config, s: System, a: Action) {
    match a
    case Encode(batch, dropped) =>
      && (forall f <- batch :: WellFormed(cfg, f))
      && (|batch| == 1 && !dropped && cfg.scale.None? && batch[0].damage != [] && s.popped.Some?
          ==> HonestDamage(cfg, s.popped.value, batch[0]))
    case SendInput(input) => Sendable(input) && input.msg.msgType !in {H.FrameUpdate, H.AnchorFrame, H.Resize}
    case _ => true
  }

  function Run(cfg: Config, actions: seq<Action>): System {
    if actions == [] then Initial else Step(cfg, Run(cfg, actions[..|actions| - 1]), actions[|actions| - 1])
  }

  /** A run in which every action was allowed when it happened. */
  ghost predicate ValidRun(cfg: Config, actions: seq<Action>) {
    actions != [] ==>
      var front := actions[..|actions| - 1];
      ValidRun(cfg, front) && Allowed(cfg, Run(cfg, front), actions[|actions| - 1])
  }

  // ----- The server's side of the invariant -----

  /** The server's base after the first `k` accepted messages. */
  function BaseOf(cfg: Config, sent: seq<Entry>, k: nat): seq<byte>
    requires k <= |sent|
  {
    if k == 0 then Zeros(Size(cfg)) else sent[k - 1].picture
  }

  /** `needFull` is false only while the base is the frame popped last; and the base is always the
      picture of the last accepted message. */
  predicate ServerOk(cfg: Config, server: ServerState, popped: Option<seq<byte>>, sent: seq<Entry>) {
    && (server.isFirst <==> server.count == 0)
    && (server.isFirst ==> server.prev == [] && sent == [])
    && (!server.isFirst ==> |server.prev| == Size(cfg) && popped.Some?)
    && (!server.isFirst && !server.needFull ==> popped == Some(server.prev))
    && Bytes.Resize(server.prev, Size(cfg)) == BaseOf(cfg, sent, |sent|)
  }

  /** The message turns `base` into the picture it was encoded from, on visible bytes. */
  ghost predicate EntryOk(cfg: Config, base: seq<byte>, e: Entry) {
    && |e.picture| == |base| == Size(cfg) && Decodable(cfg.codec, e.msg.payload, Size(cfg))
    && e.msg.msgType in {H.FrameUpdate, H.AnchorFrame} && NoLast(e.msg)
    && Agree(cfg, Xor(base, Mask(cfg.codec, e.msg.payload, Size(cfg))), e.picture)
  }

  ghost predicate EntriesOk(cfg: Config, sent: seq<Entry>) {
    forall k :: 0 <= k < |sent| ==> EntryOk(cfg, BaseOf(cfg, sent, k), sent[k])
  }

  lemma PictureSize(cfg: Config, f: Frame)
    requires ValidConfig(cfg) && WellFormed(cfg, f)
    ensures |Picture(cfg, f)| == Size(cfg)
  {}

  /** The draft's base is the server's base and both frames have the session's size. */
  lemma DraftSizes(cfg: Config, s: System, batch: seq<Frame>, dropped: bool)
    requires ValidConfig(cfg) && ServerOk(cfg, s.server, s.popped, s.sent)
    requires batch != [] && Allowed(cfg, s, Encode(batch, dropped))
    ensures var d := DraftOf(cfg, s.server, batch, dropped);
            |d.picture| == |d.base| == Size(cfg) && d.base == BaseOf(cfg, s.sent, |s.sent|)
  {
    assert batch[|batch| - 1] in batch;
    PictureSize(cfg, batch[|batch| - 1]);
  }

  lemma DraftRegions(cfg: Config, s: System, batch: seq<Frame>, dropped: bool)
    requires ValidConfig(cfg) && batch != [] && Allowed(cfg, s, Encode(batch, dropped))
    ensures RegionsOk(cfg, DraftOf(cfg, s.server, batch, dropped))
  {
    assert batch[|batch| - 1] in batch;
    StripesShape(cfg.width, cfg.height, cfg.threads);
  }

  /** The encoder never panics. */
  lemma NeverPanics(cfg: Config, s: System, batch: seq<Frame>, dropped: bool)
    requires ValidConfig(cfg) && ServerOk(cfg, s.server, s.popped, s.sent)
    requires batch != [] && Allowed(cfg, s, Encode(batch, dropped))
    ensures Encodes(cfg, DraftOf(cfg, s.server, batch, dropped))
  {
    DraftSizes(cfg, s, batch, dropped);
    DraftRegions(cfg, s, batch, dropped);
    Server.Encodable(cfg, DraftOf(cfg, s.server, batch, dropped));
  }

  /** The regions the server encodes cover every visible byte in which the new picture differs
      from its base, whatever was skipped, dropped, refused or scaled before. */
  lemma RegionsCoverChanges(cfg: Config, s: System, batch: seq<Frame>, dropped: bool, i: nat)
    requires ValidConfig(cfg) && ServerOk(cfg, s.server, s.popped, s.sent)
    requires batch != [] && Allowed(cfg, s, Encode(batch, dropped))
    requires i < Size(cfg) && Visible(cfg, i)
    ensures var d := DraftOf(cfg, s.server, batch, dropped);
            i < |d.picture| && i < |d.base| && (d.picture[i] != d.base[i] ==> Covered(SpansOf(cfg.stride, d.regions), i))
  {
    DraftSizes(cfg, s, batch, dropped);
    var d := DraftOf(cfg, s.server, batch, dropped);
    var y: nat, c: nat :| IsAt(cfg, y, c, i);
    if d.regions == StripesOf(cfg.width, cfg.height, cfg.threads) {
      StripesCover(cfg.stride, cfg.width, cfg.height, cfg.threads, y, c);
    } else if d.picture[i] != d.base[i] {
      assert d.base == s.popped.value && d.regions == batch[0].damage;
      DraftRegions(cfg, s, batch, dropped);
      SpansCover(cfg.stride, d.regions, cfg.width, cfg.height, y, c);
    }
  }

  lemma XorBack(b: byte, p: byte)
    ensures b ^ (p ^ b) == p && b ^ 0 == b
  {}

  lemma FlipsToPicture(cfg: Config, d: Draft, i: nat)
    requires ValidConfig(cfg) && RegionsOk(cfg, d) && Encodes(cfg, d)
    requires |d.picture| == |d.base| == Size(cfg) && i < Size(cfg)
    ensures Decodable(cfg.codec, PayloadOf(cfg, d), Size(cfg))
    ensures Xor(d.base, Mask(cfg.codec, PayloadOf(cfg, d), Size(cfg)))[i]
            == if Covered(SpansOf(cfg.stride, d.regions), i) then d.picture[i] else d.base[i]
  {
    hide Decodable, Mask, PayloadOf, Covered, SpansOf, Encodes;
    PayloadFlips(cfg, d, i);
    XorBack(d.base[i], d.picture[i]);
  }

  /** A message carries its picture to a client in step with the server if and only if its regions
      cover every visible byte that changed. */
  lemma CoverageIsExact(cfg: Config, d: Draft)
    requires ValidConfig(cfg) && RegionsOk(cfg, d) && Encodes(cfg, d) && |d.picture| == |d.base| == Size(cfg)
    ensures Decodable(cfg.codec, PayloadOf(cfg, d), Size(cfg))
    ensures Agree(cfg, Xor(d.base, Mask(cfg.codec, PayloadOf(cfg, d), Size(cfg))), d.picture)
       <==> forall i: nat :: i < Size(cfg) && Visible(cfg, i) && d.picture[i] != d.base[i]
                             ==> Covered(SpansOf(cfg.stride, d.regions), i)
  {
    hide Decodable, Mask, PayloadOf, Covered, SpansOf, Encodes, Visible;
    PayloadDecodable(cfg, d);
    var mask := Mask(cfg.codec, PayloadOf(cfg, d), Size(cfg));
    forall i: nat | i < Size(cfg)
      ensures Xor(d.base, mask)[i] == if Covered(SpansOf(cfg.stride, d.regions), i) then d.picture[i] else d.base[i]
    {
      FlipsToPicture(cfg, d, i);
    }
  }

  lemma NewEntryOk(cfg: Config, s: System, batch: seq<Frame>, dropped: bool)
    requires ValidConfig(cfg) && ServerOk(cfg, s.server, s.popped, s.sent)
    requires batch != [] && Allowed(cfg, s, Encode(batch, dropped))
    ensures var d := DraftOf(cfg, s.server, batch, dropped);
            Encodes(cfg, d) && EntryOk(cfg, BaseOf(cfg, s.sent, |s.sent|), Entry(d.picture, MessageOf(cfg, d)))
  {
    hide DraftOf, Decodable, Mask, PayloadOf, Covered, SpansOf, Agree;
    NeverPanics(cfg, s, batch, dropped);
    DraftSizes(cfg, s, batch, dropped);
    DraftRegions(cfg, s, batch, dropped);
    var d := DraftOf(cfg, s.server, batch, dropped);
    CoverageIsExact(cfg, d);
    forall i: nat | i < Size(cfg) && Visible(cfg, i) && d.picture[i] != d.base[i]
      ensures Covered(SpansOf(cfg.stride, d.regions), i)
    {
      RegionsCoverChanges(cfg, s, batch, dropped, i);
    }
  }

  lemma BaseStays(cfg: Config, sent: seq<Entry>, e: Entry, k: nat)
    requires k <= |sent|
    ensures BaseOf(cfg, sent + [e], k) == BaseOf(cfg, sent, k)
  {}

  lemma EntryAt(cfg: Config, sent: seq<Entry>, k: nat)
    requires EntriesOk(cfg, sent) && k < |sent|
    ensures EntryOk(cfg, BaseOf(cfg, sent, k), sent[k])
  {}

  lemma EntriesGrow(cfg: Config, sent: seq<Entry>, e: Entry)
    requires EntriesOk(cfg, sent) && EntryOk(cfg, BaseOf(cfg, sent, |sent|), e)
    ensures EntriesOk(cfg, sent + [e])
  {
    var r := sent + [e];
    forall k | 0 <= k < |r| ensures EntryOk(cfg, BaseOf(cfg, r, k), r[k]) {
      hide EntryOk, EntriesOk;
      assert BaseOf(cfg, r, k) == BaseOf(cfg, sent, k) by { BaseStays(cfg, sent, e, k); }
      if k < |sent| {
        EntryAt(cfg, sent, k);
      }
    }
  }

  lemma EncodeKeepsServer(cfg: Config, s: System, batch: seq<Frame>, dropped: bool)
    requires ValidConfig(cfg) && ServerOk(cfg, s.server, s.popped, s.sent)
    requires batch != [] && Allowed(cfg, s, Encode(batch, dropped))
    requires EntriesOk(cfg, s.sent)
    ensures var t := EncodeStep(cfg, s, batch, dropped);
            ServerOk(cfg, t.server, t.popped, t.sent) && EntriesOk(cfg, t.sent) && t.fault == s.fault
  {
    hide EntryOk, EntriesOk, Encodes, MessageOf, Allowed, Picture;
    NewEntryOk(cfg, s, batch, dropped);
    DraftSizes(cfg, s, batch, dropped);
    var d := DraftOf(cfg, s.server, batch, dropped);
    EntriesGrow(cfg, s.sent, Entry(d.picture, MessageOf(cfg, d)));
  }
}
