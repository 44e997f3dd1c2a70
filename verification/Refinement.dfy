/** The system run on bytes: the state and the queues the imperative loops have, stepping as those
    loops do. Its queues carry the packets of the step system in every run. */
module Refinement {
  import opened Bytes
  import opened Framing
  import opened ChunkSender
  import opened TransportQueues
  import opened DeliveryOrder
  import opened Client
  import opened Server
  import opened Session
  import opened Convergence
  import opened Pipe

  function BytesOf(sent: seq<Entry>, p: Packet): seq<byte>
    requires p.Video? ==> p.id < |sent|
  {
    var m := SentOf(sent, p);
    Wire(ChunksOf(m.msg, m.chunkSize))
  }

  /** A queue of byte strings carries a queue of packets. */
  predicate CarriesSeq(sent: seq<Entry>, w: seq<Packet>, b: seq<seq<byte>>) {
    Known(sent, w) && |w| == |b| && forall k :: 0 <= k < |w| ==> b[k] == BytesOf(sent, w[k])
  }

  predicate Carries(sent: seq<Entry>, q: Queues<Packet>, b: Queues<seq<byte>>) {
    && q.turn == b.turn && q.closed == b.closed
    && CarriesSeq(sent, q.input, b.input) && CarriesSeq(sent, q.anchor, b.anchor)
    && CarriesSeq(sent, q.frame, b.frame) && CarriesSeq(sent, q.written, b.written)
  }

  lemma InitiallyCarries()
    ensures Carries([], EmptyQueues(), EmptyQueues())
  {}

  lemma CarriesMoved(sent: seq<Entry>, w: seq<Packet>, b: seq<seq<byte>>, v: seq<Packet>, c: seq<seq<byte>>)
    requires CarriesSeq(sent, w, b) && CarriesSeq(sent, v, c) && v != []
    ensures CarriesSeq(sent, w + [v[0]], b + [c[0]]) && CarriesSeq(sent, v[1..], c[1..])
  {}

  /** The writer picks the same message from the byte queues as the system does from the packets. */
  lemma PollCarries(sent: seq<Entry>, q: Queues<Packet>, b: Queues<seq<byte>>)
    requires Carries(sent, q, b)
    ensures Carries(sent, TransportQueues.Poll(q), TransportQueues.Poll(b))
  {
    hide CarriesSeq;
    SameLength(sent, q.input, b.input);
    SameLength(sent, q.anchor, b.anchor);
    SameLength(sent, q.frame, b.frame);
    if q.input != [] { CarriesMoved(sent, q.written, b.written, q.input, b.input); }
    if q.anchor != [] { CarriesMoved(sent, q.written, b.written, q.anchor, b.anchor); }
    if q.frame != [] { CarriesMoved(sent, q.written, b.written, q.frame, b.frame); }
  }

  lemma SameLength(sent: seq<Entry>, w: seq<Packet>, b: seq<seq<byte>>)
    requires CarriesSeq(sent, w, b)
    ensures |w| == |b|
  {}

  lemma CarriesGrown(sent: seq<Entry>, e: Entry, w: seq<Packet>, b: seq<seq<byte>>)
    requires CarriesSeq(sent, w, b)
    ensures CarriesSeq(sent + [e], w, b)
    ensures CarriesSeq(sent + [e], w + [Video(|sent|)], b + [Wire(ChunksOf(e.msg, CHUNK_SIZE))])
  {}

  /** One iteration of the server's loop, as `CompressSendLoop.Iterate` performs it on byte queues,
      is one `Encode` step of the system. */
  lemma IterateCarries(cfg: Config, s: System, b: Queues<seq<byte>>, batch: seq<Frame>, dropped: bool)
    requires Carries(s.sent, s.net, b) && batch != [] && Encodes(cfg, DraftOf(cfg, s.server, batch, dropped))
    ensures var d := DraftOf(cfg, s.server, batch, dropped);
            var t := EncodeStep(cfg, s, batch, dropped);
            && t.server == After(s.server, d, Accepts(b, d.anchor))
            && Carries(t.sent, t.net, Offer(b, d.anchor, Wire(ChunksOf(MessageOf(cfg, d), CHUNK_SIZE))))
  {
    hide CarriesSeq, Encodes, MessageOf, DraftOf;
    var d := DraftOf(cfg, s.server, batch, dropped);
    var e := Entry(d.picture, MessageOf(cfg, d));
    SameLength(s.sent, s.net.frame, b.frame);
    CarriesGrown(s.sent, e, s.net.input, b.input);
    CarriesGrown(s.sent, e, s.net.anchor, b.anchor);
    CarriesGrown(s.sent, e, s.net.frame, b.frame);
    CarriesGrown(s.sent, e, s.net.written, b.written);
  }

  lemma InputCarries(sent: seq<Entry>, q: Queues<Packet>, b: Queues<seq<byte>>, input: Sent)
    requires Carries(sent, q, b)
    ensures Carries(sent, OfferInput(q, Input(input)), OfferInput(b, Wire(ChunksOf(input.msg, input.chunkSize))))
  {}

  lemma CloseCarries(sent: seq<Entry>, q: Queues<Packet>, b: Queues<seq<byte>>)
    requires Carries(sent, q, b)
    ensures Carries(sent, TransportQueues.Close(q), TransportQueues.Close(b))
  {}

  // ----- Whole runs on bytes -----

  /** The server loop's variables and the three queues with their writer, holding wire bytes. */
  datatype ByteState = ByteState(server: ServerState, net: Queues<seq<byte>>)

  /** What `CompressSendLoop.Iterate` does to both. */
  function ByteIterate(cfg: Config, s: ByteState, batch: seq<Frame>, dropped: bool): ByteState
    requires batch != []
  {
    var d := DraftOf(cfg, s.server, batch, dropped);
    if !Encodes(cfg, d) then s
    else ByteState(After(s.server, d, Accepts(s.net, d.anchor)),
                   Offer(s.net, d.anchor, Wire(ChunksOf(MessageOf(cfg, d), CHUNK_SIZE))))
  }

  function ByteStep(cfg: Config, s: ByteState, a: Action): ByteState {
    match a
    case Encode(batch, dropped) => if batch == [] then s else ByteIterate(cfg, s, batch, dropped)
    case SendInput(input) => s.(net := OfferInput(s.net, Wire(ChunksOf(input.msg, input.chunkSize))))
    case Poll => s.(net := TransportQueues.Poll(s.net))
    case Deliver => s
    case Close => s.(net := TransportQueues.Close(s.net))
  }

  function ByteRun(cfg: Config, actions: seq<Action>): ByteState {
    if actions == [] then ByteState(InitialServer, EmptyQueues())
    else ByteStep(cfg, ByteRun(cfg, actions[..|actions| - 1]), actions[|actions| - 1])
  }

  /** The bytes handed to the pipe. */
  function Piped(cfg: Config, actions: seq<Action>): seq<byte> {
    Concat(ByteRun(cfg, actions).net.written)
  }

  /** The byte state mirrors the system. */
  predicate Mirrors(s: System, b: ByteState) {
    b.server == s.server && Carries(s.sent, s.net, b.net)
  }

  lemma StepMirrors(cfg: Config, s: System, b: ByteState, a: Action)
    requires ValidConfig(cfg) && Good(cfg, s) && Allowed(cfg, s, a) && Mirrors(s, b)
    ensures Mirrors(Step(cfg, s, a), ByteStep(cfg, b, a))
  {
    hide Carries, Allowed, ValidConfig, Encodes, MessageOf, DraftOf, EntriesOk, Ordered, ServerOk, Receive, Arrival;
    match a
    case Encode(batch, dropped) =>
      if batch != [] {
        NeverPanics(cfg, s, batch, dropped);
        IterateCarries(cfg, s, b.net, batch, dropped);
      }
    case SendInput(input) => InputCarries(s.sent, s.net, b.net, input);
    case Poll => PollCarries(s.sent, s.net, b.net);
    case Deliver =>
    case Close => CloseCarries(s.sent, s.net, b.net);
  }

  /** In every run, the loops on bytes have the system's server state, and their queues and pipe
      carry its packets, message by message. */
  lemma {:induction false} RunsMirror(cfg: Config, actions: seq<Action>)
    requires ValidConfig(cfg) && ValidRun(cfg, actions)
    ensures Mirrors(Run(cfg, actions), ByteRun(cfg, actions))
    decreases |actions|
  {
    hide Mirrors, Step, ByteStep, Allowed, ValidConfig;
    if actions == [] {
      InitiallyMirrors(cfg);
    } else {
      var front := actions[..|actions| - 1];
      RunsMirror(cfg, front);
      RunsAreGood(cfg, front);
      StepMirrors(cfg, Run(cfg, front), ByteRun(cfg, front), actions[|actions| - 1]);
    }
  }

  lemma InitiallyMirrors(cfg: Config)
    ensures Mirrors(Run(cfg, []), ByteRun(cfg, []))
  {
    InitiallyCarries();
  }

  // ----- The objects -----

  /** The loop and its transport as objects, taken through a run by their own methods, end in the
      state the byte run gives. */
  method RunObjects(cfg: Config, actions: seq<Action>)
    returns (loop: CompressSendLoop, sender: TransportSender<seq<byte>>)
    requires ValidConfig(cfg) && ValidRun(cfg, actions)
    ensures fresh(loop) && fresh(sender) && loop.cfg == cfg && loop.sender == sender
    ensures ByteState(loop.State(), sender.State()) == ByteRun(cfg, actions)
  {
    hide ValidConfig, ValidRun, Allowed, Encodes, DraftOf, MessageOf, After, Offer, Accepts, ByteRun;
    sender := new TransportSender();
    loop := new CompressSendLoop(cfg, sender);
    NothingYet(cfg);
    assert actions[..|actions|] == actions;
    for i := 0 to |actions|
      invariant fresh(loop) && fresh(sender) && loop.cfg == cfg && loop.sender == sender
      invariant ByteState(loop.State(), sender.State()) == ByteRun(cfg, actions[..i])
    {
      ByteRunNext(cfg, actions, i);
      match actions[i]
      case Encode(batch, dropped) =>
        if batch != [] {
          MayEncode(cfg, actions, i);
          var _ := loop.Iterate(batch, dropped);
        }
      case SendInput(input) =>
        var wire := SplitIntoChunks(input.msg, input.chunkSize, []);
        AppendEmpty(Wire(ChunksOf(input.msg, input.chunkSize)));
        var _ := sender.SendInput(wire);
      case Poll => sender.Look();
      case Deliver =>
      case Close => sender.Disconnect();
    }
  }

  lemma NothingYet(cfg: Config)
    ensures ByteRun(cfg, []) == ByteState(InitialServer, EmptyQueues())
  {}

  lemma ByteRunNext(cfg: Config, actions: seq<Action>, i: nat)
    requires i < |actions|
    ensures ByteRun(cfg, actions[..i + 1]) == ByteStep(cfg, ByteRun(cfg, actions[..i]), actions[i])
  {
    hide ByteStep;
    assert actions[..i + 1][..i] == actions[..i];
  }

  /** The first actions of a valid run are one, and the next was allowed after them. */
  lemma {:induction false} RunPrefix(cfg: Config, actions: seq<Action>, i: nat)
    requires ValidRun(cfg, actions) && i < |actions|
    ensures ValidRun(cfg, actions[..i]) && Allowed(cfg, Run(cfg, actions[..i]), actions[i])
    decreases |actions|
  {
    hide Run, Allowed;
    var front := actions[..|actions| - 1];
    if i < |front| {
      RunPrefix(cfg, front, i);
      assert front[..i] == actions[..i];
    }
  }

  /** In a run the encoder's demands are met whenever the loop is called. */
  lemma MayEncode(cfg: Config, actions: seq<Action>, i: nat)
    requires ValidConfig(cfg) && ValidRun(cfg, actions) && i < |actions| && actions[i].Encode? && actions[i].batch != []
    ensures Encodes(cfg, DraftOf(cfg, ByteRun(cfg, actions[..i]).server, actions[i].batch, actions[i].dropped))
  {
    hide Run, ByteRun, ValidRun, Allowed, Encodes, DraftOf;
    RunPrefix(cfg, actions, i);
    RunsAreGood(cfg, actions[..i]);
    RunsMirror(cfg, actions[..i]);
    NeverPanics(cfg, Run(cfg, actions[..i]), actions[i].batch, actions[i].dropped);
  }

  // ----- The pipe -----

  /** A stretch of byte strings that carries packets is their wire form. */
  lemma {:induction false} PipeCarries(sent: seq<Entry>, w: seq<Packet>, b: seq<seq<byte>>)
    requires CarriesSeq(sent, w, b)
    ensures Concat(b) == PipeBytes(sent, w)
    decreases |w|
  {
    hide PipeBytes, BytesOf;
    if w == [] {
      NothingPiped(sent);
    } else {
      var front, p := w[..|w| - 1], w[|w| - 1];
      PipeCarries(sent, front, b[..|w| - 1]);
      assert b[..|w| - 1] + [BytesOf(sent, p)] == b && front + [p] == w;
      ConcatSnoc(b[..|w| - 1], BytesOf(sent, p));
      PipeSnoc(sent, front, p);
    }
  }

  lemma NothingPiped(sent: seq<Entry>)
    ensures PipeBytes(sent, []) == []
  {}

  lemma PipeSnoc(sent: seq<Entry>, front: seq<Packet>, p: Packet)
    requires Known(sent, front) && (p.Video? ==> p.id < |sent|)
    ensures Known(sent, front + [p]) && PipeBytes(sent, front + [p]) == PipeBytes(sent, front) + BytesOf(sent, p)
  {
    hide ChunksOf, SentOf;
    assert Known(sent, front + [p]);
    var m := SentOf(sent, p);
    assert SentList(sent, front) + [m] == SentList(sent, front + [p]);
    AllChunksConcat(SentList(sent, front), [m]);
    AllChunksOne(m);
    WireConcat(AllChunks(SentList(sent, front)), ChunksOf(m.msg, m.chunkSize));
  }

  /** The bytes handed to the pipe are the wire form of the packets written, and so is every part
      of them that ends with a packet. */
  lemma PipedIsWritten(cfg: Config, actions: seq<Action>, j: nat)
    requires ValidConfig(cfg) && ValidRun(cfg, actions)
    ensures var s, b := Run(cfg, actions), ByteRun(cfg, actions);
            && |b.net.written| == |s.net.written|
            && (j <= |s.net.written| ==>
                  && Known(s.sent, s.net.written[..j])
                  && Concat(b.net.written[..j]) == PipeBytes(s.sent, s.net.written[..j]))
  {
    hide Run, ByteRun, ValidRun;
    RunsMirror(cfg, actions);
    var s, b := Run(cfg, actions), ByteRun(cfg, actions);
    assert CarriesSeq(s.sent, s.net.written, b.net.written);
    if j <= |s.net.written| {
      PipeCarries(s.sent, s.net.written[..j], b.net.written[..j]);
    }
  }
}
