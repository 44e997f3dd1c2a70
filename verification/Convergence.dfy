/** What holds in every reachable state of a session: the two bases and the messages in flight. */
module Convergence {
  import opened Bytes
  import opened Delta
  import opened ChunkSender
  import opened TransportQueues
  import opened DeliveryOrder
  import opened Client
  import opened Server
  import opened Session
  import H = Header

  // ----- The effect of a stretch of messages -----

  /** The bits that accepted message `id` flips in a base. */
  function MaskOf(cfg: Config, sent: seq<Entry>, id: nat): (r: seq<byte>)
    ensures |r| == Size(cfg)
  {
    if id < |sent| && Decodable(cfg.codec, sent[id].msg.payload, Size(cfg))
    then Mask(cfg.codec, sent[id].msg.payload, Size(cfg)) else Zeros(Size(cfg))
  }

  /** The XOR of the masks of all frame messages among the packets. */
  function Acc(cfg: Config, sent: seq<Entry>, w: seq<Packet>): (r: seq<byte>)
    ensures |r| == Size(cfg)
  {
    if w == [] then Zeros(Size(cfg))
    else
      var before, last := Acc(cfg, sent, w[..|w| - 1]), w[|w| - 1];
      if last.Video? then Xor(before, MaskOf(cfg, sent, last.id)) else before
  }

  lemma AccSnoc(cfg: Config, sent: seq<Entry>, w: seq<Packet>, p: Packet)
    ensures Acc(cfg, sent, w + [p])
            == if p.Video? then Xor(Acc(cfg, sent, w), MaskOf(cfg, sent, p.id)) else Acc(cfg, sent, w)
  {
    assert (w + [p])[..|w|] == w;
  }

  /** Messages accepted later do not change what earlier ones do. */
  lemma {:induction false} AccStays(cfg: Config, sent: seq<Entry>, e: Entry, w: seq<Packet>)
    requires forall p <- w :: p.Video? ==> p.id < |sent|
    ensures Acc(cfg, sent + [e], w) == Acc(cfg, sent, w)
  {
    if w != [] {
      AccStays(cfg, sent, e, w[..|w| - 1]);
    }
  }

  // ----- The invariant -----

  predicate HarmlessInput(p: Packet) {
    p.Input? ==> Sendable(p.sent) && p.sent.msg.msgType !in {H.FrameUpdate, H.AnchorFrame, H.Resize}
  }

  predicate InputsOk(q: Queues<Packet>) {
    (forall p <- q.input :: HarmlessInput(p)) && (forall p <- q.written :: HarmlessInput(p))
  }

  /** The client's base is the accumulated effect of what it has received. */
  predicate ClientOk(cfg: Config, s: System) {
    && s.delivered <= |s.net.written|
    && (if s.client.hasPrevious then |s.client.prev| == Size(cfg) else s.client.prev == [])
    && Bytes.Resize(s.client.prev, Size(cfg)) == Acc(cfg, s.sent, s.net.written[..s.delivered])
  }

  ghost predicate Good(cfg: Config, s: System) {
    && !s.fault
    && ServerOk(cfg, s.server, s.popped, s.sent) && EntriesOk(cfg, s.sent)
    && Ordered(s.net, |s.sent|, s.server.count) && InputsOk(s.net)
    && ClientOk(cfg, s)
  }

  lemma InitiallyGood(cfg: Config)
    ensures Good(cfg, Initial)
  {
    InitiallyOrdered();
  }

  lemma WrittenKnown(q: Queues<Packet>, n: nat)
    requires Partitioned(q, n)
    ensures forall p <- q.written :: p.Video? ==> p.id < n
  {
    forall p <- q.written | p.Video? ensures p.id < n {
      assert p in multiset(q.written);
      assert Contents(q)[Video(p.id)] > 0;
    }
  }

  // ----- Every step keeps it -----

  lemma OfferKeepsOrder(cfg: Config, s: System, d: Draft, ok: bool)
    requires Ordered(s.net, |s.sent|, s.server.count) && ok == Accepts(s.net, d.anchor)
    requires d.anchor ==> s.server.count % ANCHOR_INTERVAL == 0
    ensures Ordered(Offer(s.net, d.anchor, Video(|s.sent|)), if ok then |s.sent| + 1 else |s.sent|, s.server.count + 1)
  {
    hide Partitioned, Ahead, AnchorSlippedIn, Increasing;
    if !ok {
      RefusalOrdered(s.net, |s.sent|, s.server.count);
    } else if d.anchor {
      AnchorOrdered(s.net, |s.sent|, s.server.count);
    } else {
      FrameOrdered(s.net, |s.sent|, s.server.count);
    }
  }

  /** Offering a message touches neither the inputs nor the pipe. */
  lemma OfferKeepsRest(q: Queues<Packet>, anchor: bool, m: Packet)
    ensures var r := Offer(q, anchor, m); r.input == q.input && r.written == q.written
  {}

  lemma ClientStays(cfg: Config, s: System, t: System, e: Entry)
    requires ClientOk(cfg, s) && Partitioned(s.net, |s.sent|)
    requires t.net.written == s.net.written && t.delivered == s.delivered && t.client == s.client
    requires t.sent == s.sent || t.sent == s.sent + [e]
    ensures ClientOk(cfg, t)
  {
    WrittenKnown(s.net, |s.sent|);
    AccStays(cfg, s.sent, e, s.net.written[..s.delivered]);
  }

  lemma EncodeKeeps(cfg: Config, s: System, batch: seq<Frame>, dropped: bool)
    requires ValidConfig(cfg) && Good(cfg, s) && batch != [] && Allowed(cfg, s, Encode(batch, dropped))
    ensures Good(cfg, EncodeStep(cfg, s, batch, dropped))
  {
    hide EntriesOk, Ordered, Allowed, Encodes, MessageOf, Offer, Accepts, HarmlessInput, ValidConfig, ClientOk;
    var d := DraftOf(cfg, s.server, batch, dropped);
    var t := EncodeStep(cfg, s, batch, dropped);
    NeverPanics(cfg, s, batch, dropped);
    EncodeKeepsServer(cfg, s, batch, dropped);
    OfferKeepsOrder(cfg, s, d, Accepts(s.net, d.anchor));
    OfferKeepsRest(s.net, d.anchor, Video(|s.sent|));
    assert Partitioned(s.net, |s.sent|) by { OrderedPartitions(s.net, |s.sent|, s.server.count); }
    ClientStays(cfg, s, t, Entry(d.picture, MessageOf(cfg, d)));
  }

  lemma OrderedPartitions(q: Queues<Packet>, n: nat, count: nat)
    requires Ordered(q, n, count)
    ensures Partitioned(q, n)
  {}

  lemma InputKeeps(cfg: Config, s: System, input: Sent)
    requires Good(cfg, s) && Allowed(cfg, s, SendInput(input))
    ensures Good(cfg, Step(cfg, s, SendInput(input)))
  {
    hide EntriesOk, Ordered, ServerOk;
    InputOrdered(s.net, |s.sent|, s.server.count, input);
  }

  lemma PollKeeps(cfg: Config, s: System)
    requires Good(cfg, s)
    ensures Good(cfg, Step(cfg, s, Poll))
  {
    hide EntriesOk, Ordered, ServerOk;
    PollOrdered(s.net, |s.sent|, s.server.count);
    PollExtends(s.net);
    assert InputsOk(TransportQueues.Poll(s.net)) by { PollInputs(s.net, |s.sent|, s.server.count); }
    var w := TransportQueues.Poll(s.net).written;
    assert w[..s.delivered] == w[..|s.net.written|][..s.delivered];
  }

  lemma PollInputs(q: Queues<Packet>, n: nat, count: nat)
    requires Ordered(q, n, count) && InputsOk(q)
    ensures InputsOk(TransportQueues.Poll(q))
  {
    hide Ahead, Partitioned, AnchorSlippedIn, Increasing;
    var r := TransportQueues.Poll(q);
    forall p <- r.written ensures HarmlessInput(p) {
      if p !in q.written {
        assert p in q.input || p in q.anchor || p in q.frame;
      }
    }
  }

  lemma CloseKeeps(cfg: Config, s: System)
    requires Good(cfg, s)
    ensures Good(cfg, Step(cfg, s, Close))
  {
    hide EntriesOk, Ordered, ServerOk;
    CloseOrdered(s.net, |s.sent|, s.server.count);
  }

  // ----- Delivering -----

  lemma TypeRoundTrip(t: H.MsgType)
    ensures H.TryFrom(H.Code(t)) == Bytes.Some(t)
  {}

  /** The client takes every frame message of the server: it decodes, is shown, and flips its mask. */
  lemma VideoArrives(cfg: Config, sent: seq<Entry>, id: nat, c: ClientState)
    requires EntriesOk(cfg, sent) && id < |sent| && (c.hasPrevious ==> |c.prev| == Size(cfg))
    ensures var frame := Xor(Bytes.Resize(c.prev, Size(cfg)), MaskOf(cfg, sent, id));
            Receive(cfg.codec, c, Arrival(sent, Video(id))) == (ClientState(frame, true), Shown(frame))
  {
    hide Decodable, Mask, ReceiveFrame;
    EntryAt(cfg, sent, id);
    var msg := sent[id].msg;
    TypeRoundTrip(msg.msgType);
    FrameFlipsMask(cfg.codec, c, msg.msgType == H.AnchorFrame, msg.payload, Size(cfg));
  }

  lemma InputArrives(cfg: Config, sent: seq<Entry>, p: Packet, c: ClientState)
    requires p.Input? && HarmlessInput(p)
    ensures Receive(cfg.codec, c, Arrival(sent, p)) == (c, Skipped)
  {
    hide ReceiveFrame;
    TypeRoundTrip(p.sent.msg.msgType);
  }

  lemma DeliverKeeps(cfg: Config, s: System)
    requires Good(cfg, s)
    ensures Good(cfg, Step(cfg, s, Deliver))
  {
    hide EntriesOk, Ordered, ServerOk, Receive, Arrival, MaskOf, Acc, HarmlessInput;
    if s.delivered < |s.net.written| {
      var w := s.net.written;
      var p := w[s.delivered];
      assert w[..s.delivered + 1] == w[..s.delivered] + [p];
      AccSnoc(cfg, s.sent, w[..s.delivered], p);
      if p.Video? {
        OrderedPartitions(s.net, |s.sent|, s.server.count);
        WrittenKnown(s.net, |s.sent|);
        VideoArrives(cfg, s.sent, p.id, s.client);
      } else {
        InputArrives(cfg, s.sent, p, s.client);
      }
    }
  }

  lemma StepKeeps(cfg: Config, s: System, a: Action)
    requires ValidConfig(cfg) && Good(cfg, s) && Allowed(cfg, s, a)
    ensures Good(cfg, Step(cfg, s, a))
  {
    hide Good, Allowed, EncodeStep, DeliverStep, ValidConfig;
    match a
    case Encode(batch, dropped) => if batch != [] { EncodeKeeps(cfg, s, batch, dropped); }
    case SendInput(input) => InputKeeps(cfg, s, input);
    case Poll => PollKeeps(cfg, s);
    case Deliver => DeliverKeeps(cfg, s);
    case Close => CloseKeeps(cfg, s);
  }

  /** Every run with honest damage stays good: nothing ever panics, the server's base is known, and
      the client's base is the effect of what it has received. */
  lemma {:induction false} RunsAreGood(cfg: Config, actions: seq<Action>)
    requires ValidConfig(cfg) && ValidRun(cfg, actions)
    ensures Good(cfg, Run(cfg, actions))
    decreases |actions|
  {
    hide Good, Allowed, Step, ValidConfig;
    if actions == [] {
      InitiallyGood(cfg);
    } else {
      var front := actions[..|actions| - 1];
      RunsAreGood(cfg, front);
      StepKeeps(cfg, Run(cfg, front), actions[|actions| - 1]);
    }
  }
}
