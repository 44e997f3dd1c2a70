/** From bytes to pictures: what the server's loops hand to the pipe, cut anywhere by the reads,
    parsed, reassembled and decoded by a fresh client. */
module EndToEnd {
  import opened Bytes
  import opened Framing
  import opened ChunkSender
  import opened TransportQueues
  import opened DeliveryOrder
  import opened Client
  import opened Server
  import opened Session
  import opened Convergence
  import opened InFlight
  import opened PartialReads
  import opened StreamParsing
  import opened Pipe
  import opened Refinement
  import H = Header

  lemma GoodWritten(cfg: Config, s: System)
    requires Good(cfg, s)
    ensures Known(s.sent, s.net.written) && forall p <- s.net.written :: HarmlessInput(p)
  {
    OrderedPartitions(s.net, |s.sent|, s.server.count);
    WrittenKnown(s.net, |s.sent|);
  }

  lemma AllSendable(cfg: Config, sent: seq<Entry>, w: seq<Packet>)
    requires Known(sent, w) && EntriesOk(cfg, sent) && forall p <- w :: HarmlessInput(p)
    ensures forall m <- SentList(sent, w) :: Sendable(m)
  {
    var list := SentList(sent, w);
    forall k | 0 <= k < |list| ensures Sendable(list[k]) {
      assert w[k] in w;
      if w[k].Video? {
        EntryAt(cfg, sent, w[k].id);
      }
    }
  }

  /** Cut the pipe's bytes anywhere, stop reading anywhere: the receiver gets, without error, the
      written packets whose bytes it has read in full, whole and in order. */
  lemma BytesToMessages(cfg: Config, s: System, frags: seq<seq<byte>>, rest: seq<byte>) returns (k: nat)
    requires Good(cfg, s) && Known(s.sent, s.net.written)
    requires Concat(frags) + rest == PipeBytes(s.sent, s.net.written)
    ensures k <= |s.net.written|
    ensures PushAll(FreshParser, frags).error == None
    ensures PushAll(FreshParser, frags).out == Arrivals(s.sent, s.net.written[..k])
    ensures forall j :: 0 <= j <= |s.net.written| ==>
              (j <= k <==> |PipeBytes(s.sent, s.net.written[..j])| <= |Concat(frags)|)
    ensures rest == [] ==> PushAll(FreshParser, frags).parser == FreshParser
  {
    hide Good, SentOf, Arrival, PushAll, Wire, AllChunks;
    var w := s.net.written;
    var list := SentList(s.sent, w);
    GoodWritten(cfg, s);
    assert EntriesOk(cfg, s.sent) by { GoodEntries(cfg, s); }
    AllSendable(cfg, s.sent, w);
    PartialRead(list, frags, rest);
    k := |PushAll(FreshParser, frags).out|;
    forall j | 0 <= j < |w| ensures AllDelivered(list)[j] == Arrival(s.sent, w[j]) {
      ArrivalIsDelivered(s.sent, w[j]);
    }
    forall j | 0 <= j <= |w| ensures PipeBytes(s.sent, w[..j]) == WireOf(list, j) {
      assert SentList(s.sent, w[..j]) == list[..j];
    }
  }

  lemma GoodEntries(cfg: Config, s: System)
    requires Good(cfg, s)
    ensures EntriesOk(cfg, s.sent)
  {}

  lemma ArrivalIsDelivered(sent: seq<Entry>, p: Packet)
    requires p.Video? ==> p.id < |sent|
    ensures Arrival(sent, p) == Delivered(SentOf(sent, p).msg, SentOf(sent, p).chunkSize)
  {}

  // ----- Decoding the messages -----

  lemma {:induction false} ReceiveSnoc(cfg: Config, c: ClientState, msgs: seq<Message>, m: Message)
    requires ReceiveAll(cfg.codec, c, msgs).1 == None
    requires !Receive(cfg.codec, ReceiveAll(cfg.codec, c, msgs).0, m).1.Crashed?
    ensures ReceiveAll(cfg.codec, c, msgs + [m]) == (Receive(cfg.codec, ReceiveAll(cfg.codec, c, msgs).0, m).0, None)
    decreases |msgs|
  {
    hide Receive;
    if msgs != [] {
      assert (msgs + [m])[1..] == msgs[1..] + [m];
      ReceiveSnoc(cfg, Receive(cfg.codec, c, msgs[0]).0, msgs[1..], m);
    }
  }

  /** A fresh client that receives the packets never fails and ends with their accumulated effect. */
  lemma {:induction false} MessagesToPicture(cfg: Config, sent: seq<Entry>, w: seq<Packet>)
    requires EntriesOk(cfg, sent) && Known(sent, w) && forall p <- w :: HarmlessInput(p)
    ensures var (c, crash) := ReceiveAll(cfg.codec, InitialClient, Arrivals(sent, w));
            && crash == None && (c.hasPrevious ==> |c.prev| == Size(cfg))
            && Bytes.Resize(c.prev, Size(cfg)) == Acc(cfg, sent, w)
    decreases |w|
  {
    hide EntriesOk, Receive, Arrival, MaskOf, HarmlessInput, Acc;
    if w == [] {
      NothingReceived(cfg, sent);
    } else {
      var front, p := w[..|w| - 1], w[|w| - 1];
      MessagesToPicture(cfg, sent, front);
      var c := ReceiveAll(cfg.codec, InitialClient, Arrivals(sent, front)).0;
      if p.Video? {
        VideoArrives(cfg, sent, p.id, c);
      } else {
        InputArrives(cfg, sent, p, c);
      }
      assert front + [p] == w;
      AccSnoc(cfg, sent, front, p);
      assert Arrivals(sent, front) + [Arrival(sent, p)] == Arrivals(sent, w);
      ReceiveSnoc(cfg, InitialClient, Arrivals(sent, front), Arrival(sent, p));
    }
  }

  lemma NothingReceived(cfg: Config, sent: seq<Entry>)
    ensures ReceiveAll(cfg.codec, InitialClient, []) == (InitialClient, None)
    ensures Bytes.Resize([], Size(cfg)) == Acc(cfg, sent, [])
  {}

  // ----- The whole way -----

  /** A fresh client that has read these fragments, and how its loop ended if it crashed. */
  function ClientAfter(cfg: Config, frags: seq<seq<byte>>): (ClientState, Option<Outcome>) {
    ReceiveAll(cfg.codec, InitialClient, PushAll(FreshParser, frags).out)
  }

  /** The client's objects, given these fragments by the reads, end in that state. */
  method ReadObjects(cfg: Config, frags: seq<seq<byte>>) returns (client: ReceiveLoop, crash: Option<Outcome>)
    ensures fresh(client) && (client.State(), crash) == ClientAfter(cfg, frags)
  {
    var parser := new StreamParser();
    var msgs, _ := parser.ReadLoop(frags);
    client := new ReceiveLoop(cfg.codec);
    crash := client.Loop(msgs);
  }

  /** A client that has read any part of the bytes the server's loops handed to the pipe in any run,
      cut in any way: it has crashed on nothing and parsed no error; it has received the first `k`
      packets, which are exactly those whose bytes it has read in full; it holds exactly their
      effect; and it misses at most two messages older than one it has. */
  lemma AnyPart(cfg: Config, actions: seq<Action>, frags: seq<seq<byte>>, rest: seq<byte>) returns (k: nat)
    requires ValidConfig(cfg) && ValidRun(cfg, actions) && Concat(frags) + rest == Piped(cfg, actions)
    ensures var s, b := Run(cfg, actions), ByteRun(cfg, actions).net.written;
            && k <= |b| == |s.net.written|
            && (forall j :: 0 <= j <= |b| ==> (j <= k <==> |Concat(b[..j])| <= |Concat(frags)|))
            && PushAll(FreshParser, frags).error == None && ClientAfter(cfg, frags).1 == None
            && Bytes.Resize(ClientAfter(cfg, frags).0.prev, Size(cfg)) == Acc(cfg, s.sent, s.net.written[..k])
            && forall d: nat :: Video(d) in s.net.written[..k] ==>
                 |set x: nat | x < d && Video(x) !in s.net.written[..k]| <= FRAME_QUEUE_DEPTH
  {
    hide Good, Run, ByteRun, ValidRun, PushAll, ReceiveAll, Acc, EntriesOk, Ordered, PipeBytes, Known;
    var s, b := Run(cfg, actions), ByteRun(cfg, actions).net.written;
    RunsAreGood(cfg, actions);
    GoodWritten(cfg, s);
    WholePipe(cfg, actions);
    k := BytesToMessages(cfg, s, frags, rest);
    forall j | 0 <= j <= |b| ensures j <= k <==> |Concat(b[..j])| <= |Concat(frags)| {
      PipedIsWritten(cfg, actions, j);
    }
    GoodEntries(cfg, s);
    assert Known(s.sent, s.net.written[..k]) by { PipedIsWritten(cfg, actions, k); }
    MessagesToPicture(cfg, s.sent, s.net.written[..k]);
    assert Ordered(s.net, |s.sent|, s.server.count) by { GoodOrder(cfg, s); }
    forall d: nat | Video(d) in s.net.written[..k]
      ensures |set x: nat | x < d && Video(x) !in s.net.written[..k]| <= FRAME_QUEUE_DEPTH
    {
      AtMostTwoMissing(s.net, |s.sent|, s.server.count, k, d);
    }
  }

  lemma WholePipe(cfg: Config, actions: seq<Action>)
    requires ValidConfig(cfg) && ValidRun(cfg, actions)
    ensures var s := Run(cfg, actions);
            && |ByteRun(cfg, actions).net.written| == |s.net.written|
            && Known(s.sent, s.net.written) && Piped(cfg, actions) == PipeBytes(s.sent, s.net.written)
  {
    hide Run, ByteRun, ValidRun, PipeBytes;
    var s, b := Run(cfg, actions), ByteRun(cfg, actions).net.written;
    PipedIsWritten(cfg, actions, |s.net.written|);
    assert s.net.written[..|s.net.written|] == s.net.written && b[..|b|] == b;
  }

  lemma GoodOrder(cfg: Config, s: System)
    requires Good(cfg, s)
    ensures Ordered(s.net, |s.sent|, s.server.count)
  {}

  /** Once everything accepted has been written and every byte of the pipe read, in whatever
      fragments, the client shows the server's picture on every visible byte. */
  lemma AllBytes(cfg: Config, actions: seq<Action>, frags: seq<seq<byte>>)
    requires ValidConfig(cfg) && ValidRun(cfg, actions) && Concat(frags) == Piped(cfg, actions)
    requires ByteRun(cfg, actions).net.anchor == [] && ByteRun(cfg, actions).net.frame == []
    ensures PushAll(FreshParser, frags).error == None && ClientAfter(cfg, frags).1 == None
    ensures Agree(cfg, Bytes.Resize(ClientAfter(cfg, frags).0.prev, Size(cfg)),
                  Bytes.Resize(ByteRun(cfg, actions).server.prev, Size(cfg)))
  {
    hide Good, Run, ByteRun, ValidRun, PushAll, ReceiveAll, Acc, EntriesOk, Ordered, Visible, PipeBytes, Known;
    var s := Run(cfg, actions);
    RunsAreGood(cfg, actions);
    MirroredQueues(cfg, actions);
    GoodWritten(cfg, s);
    WholePipe(cfg, actions);
    AppendEmpty(Concat(frags));
    var k := BytesToMessages(cfg, s, frags, []);
    var w := s.net.written;
    assert w[..|w|] == w && k == |w|;
    GoodEntries(cfg, s);
    MessagesToPicture(cfg, s.sent, w);
    assert Permutes(w, |s.sent|) by { QuietPermutes(cfg, s); }
    assert ServerBase(cfg, s) == BaseOf(cfg, s.sent, |s.sent|) by { GoodBase(cfg, s); }
    BaseSize(cfg, s.sent, |s.sent|);
    forall i: nat | i < Size(cfg) && Visible(cfg, i) ensures Acc(cfg, s.sent, w)[i] == ServerBase(cfg, s)[i] {
      AnyOrder(cfg, s.sent, w, |s.sent|, i);
    }
  }

  lemma MirroredQueues(cfg: Config, actions: seq<Action>)
    requires ValidConfig(cfg) && ValidRun(cfg, actions)
    ensures var s, b := Run(cfg, actions), ByteRun(cfg, actions);
            b.server == s.server && |b.net.anchor| == |s.net.anchor| && |b.net.frame| == |s.net.frame|
  {
    RunsMirror(cfg, actions);
  }

  lemma GoodBase(cfg: Config, s: System)
    requires Good(cfg, s)
    ensures ServerBase(cfg, s) == BaseOf(cfg, s.sent, |s.sent|)
  {}

  lemma QuietPermutes(cfg: Config, s: System)
    requires Good(cfg, s) && s.net.anchor == [] && s.net.frame == []
    ensures Permutes(s.net.written, |s.sent|)
  {
    hide EntriesOk;
    EverythingPermutes(s);
    assert Received(s) + Flying(s) == s.net.written;
  }
}
