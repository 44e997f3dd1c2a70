/** What a run sends, told from the list of actions alone: which captured frame each accepted message
    carries, under which type, stream, flags and timestamp, over which regions, into which queue. */
module Captures {
  import opened Bytes
  import opened Stripes
  import opened FramePayload
  import opened Framing
  import opened ChunkSender
  import opened TransportQueues
  import opened DeliveryOrder
  import opened Client
  import opened Server
  import opened Session
  import opened Convergence
  import opened InFlight
  import opened Settling
  import opened Refinement
  import opened EndToEnd
  import H = Header

  // ----- The history of captures -----

  /** The newest frame of the last batch that was taken from the ring. */
  function LastCaptured(actions: seq<Action>): Option<Frame> {
    if actions == [] then None
    else
      match actions[|actions| - 1]
      case Encode(batch, _) => if batch == [] then LastCaptured(actions[..|actions| - 1]) else Some(batch[|batch| - 1])
      case _ => LastCaptured(actions[..|actions| - 1])
  }

  predicate Captures(a: Action) {
    a.Encode? && a.batch != []
  }

  /** How often the loop has taken frames from the ring. */
  function Count(actions: seq<Action>): nat {
    if actions == [] then 0
    else Count(actions[..|actions| - 1]) + if Captures(actions[|actions| - 1]) then 1 else 0
  }

  /** A message encoded after these actions finds room: the writer lives, and it is an anchor or fewer
      than two frames wait. */
  predicate HasRoom(cfg: Config, actions: seq<Action>) {
    var q := Run(cfg, actions).net;
    !q.closed && (Count(actions) % 300 == 0 || |q.frame| < 2)
  }

  /** The message of the last capture was accepted. */
  predicate LastAccepted(cfg: Config, actions: seq<Action>) {
    actions != [] &&
      var front, a := actions[..|actions| - 1], actions[|actions| - 1];
      if Captures(a) then HasRoom(cfg, front) else LastAccepted(cfg, front)
  }

  /** A capture: the newest frame of its batch, how many captures came before it, and whether the base
      is known to be the frame before it, nothing skipped, dropped or refused in between. */
  datatype Capture = Capture(frame: Frame, number: nat, follows: bool)

  function CaptureOf(cfg: Config, front: seq<Action>, a: Action): Capture
    requires Captures(a)
  {
    Capture(a.batch[|a.batch| - 1], Count(front), |a.batch| == 1 && !a.dropped && LastAccepted(cfg, front))
  }

  /** The captures whose messages were accepted. */
  function Accepted(cfg: Config, actions: seq<Action>): seq<Capture> {
    if actions == [] then []
    else
      var front, a := actions[..|actions| - 1], actions[|actions| - 1];
      if Captures(a) && HasRoom(cfg, front) then Accepted(cfg, front) + [CaptureOf(cfg, front, a)]
      else Accepted(cfg, front)
  }

  // ----- What a capture must become -----

  /** The captured pixels, or what the filter makes of them. */
  predicate IsPicture(cfg: Config, picture: seq<byte>, f: Frame) {
    match cfg.scale
    case None => picture == f.data
    case Some(filter) => picture == filter(f.data)
  }

  /** Every 300th capture is an anchor, from the first on. */
  predicate IsAnchor(c: Capture) {
    c.number % 300 == 0
  }

  /** Only damage that refers to the base is used; otherwise the whole frame is striped. */
  predicate UsesDamage(cfg: Config, c: Capture) {
    c.follows && !IsAnchor(c) && cfg.scale.None? && c.frame.damage != []
  }

  /** The payload announces the session's dimensions and the regions of the capture. */
  predicate Announces(cfg: Config, payload: seq<byte>, c: Capture) {
    match Deserialize(payload)
    case Err(_) => false
    case Ok(p) =>
      && p.width == cfg.width && p.height == cfg.height && p.stride == cfg.stride
      && p.regions == if UsesDamage(cfg, c) then c.frame.damage else StripesOf(cfg.width, cfg.height, cfg.threads)
  }

  /** The accepted message of a capture: its picture, on stream 1, compressed, stamped with the time of
      the frame, an anchor or a frame update, over the right regions. */
  predicate Carries(cfg: Config, e: Entry, c: Capture) {
    && IsPicture(cfg, e.picture, c.frame) && Announces(cfg, e.msg.payload, c)
    && e.msg.streamId == 1 && e.msg.extraFlags == 1 && e.msg.timestampNs == c.frame.timestampNs
    && e.msg.msgType == if IsAnchor(c) then H.AnchorFrame else H.FrameUpdate
  }

  // ----- One capture -----

  lemma NewestPicture(cfg: Config, s: System, batch: seq<Frame>, dropped: bool)
    requires batch != []
    ensures IsPicture(cfg, DraftOf(cfg, s.server, batch, dropped).picture, batch[|batch| - 1])
    ensures DraftOf(cfg, s.server, batch, dropped).timestampNs == batch[|batch| - 1].timestampNs
  {
    hide StripesOf, Resize, ForceAnchor;
  }

  /** The server's variables in terms of the history. */
  predicate Remembers(server: ServerState, count: nat, accepted: bool) {
    && server.count == count && (server.isFirst <==> count == 0)
    && (count > 0 ==> (server.needFull <==> !accepted))
  }

  lemma AnchorEvery(cfg: Config, s: System, batch: seq<Frame>, dropped: bool)
    requires batch != [] && (s.server.isFirst <==> s.server.count == 0)
    ensures DraftOf(cfg, s.server, batch, dropped).anchor <==> s.server.count % 300 == 0
  {
    hide StripesOf, Picture, Resize;
  }

  lemma RegionsOf(cfg: Config, server: ServerState, batch: seq<Frame>, dropped: bool, c: Capture, accepted: bool)
    requires batch != [] && Remembers(server, c.number, accepted)
    requires c == Capture(batch[|batch| - 1], c.number, |batch| == 1 && !dropped && accepted)
    ensures DraftOf(cfg, server, batch, dropped).regions
            == if UsesDamage(cfg, c) then c.frame.damage else StripesOf(cfg.width, cfg.height, cfg.threads)
  {
    hide StripesOf;
  }

  /** One capture makes the message the history demands. */
  lemma CaptureCarried(cfg: Config, s: System, batch: seq<Frame>, dropped: bool, c: Capture, accepted: bool)
    requires ValidConfig(cfg) && Good(cfg, s) && batch != [] && Allowed(cfg, s, Encode(batch, dropped))
    requires Remembers(s.server, c.number, accepted)
    requires c == Capture(batch[|batch| - 1], c.number, |batch| == 1 && !dropped && accepted)
    ensures var d := DraftOf(cfg, s.server, batch, dropped);
            && Encodes(cfg, d) && (d.anchor <==> IsAnchor(c)) && IsPicture(cfg, d.picture, c.frame)
            && Carries(cfg, Entry(d.picture, MessageOf(cfg, d)), c)
  {
    hide DraftOf, Encodes, PayloadOf, Allowed, ValidConfig, RegionsOk, Deserialize, StripesOf, IsPicture, UsesDamage;
    NeverPanics(cfg, s, batch, dropped);
    DraftSizes(cfg, s, batch, dropped);
    DraftRegions(cfg, s, batch, dropped);
    var d := DraftOf(cfg, s.server, batch, dropped);
    PayloadParses(cfg, d);
    NewestPicture(cfg, s, batch, dropped);
    AnchorEvery(cfg, s, batch, dropped);
    RegionsOf(cfg, s.server, batch, dropped, c, accepted);
  }

  // ----- Whole runs -----

  /** What the queues hold and what was popped, in terms of the history. */
  predicate QueuesByType(cfg: Config, s: System) {
    && (forall k :: 0 <= k < |s.net.anchor| ==>
          s.net.anchor[k].Video? && s.net.anchor[k].id < |s.sent|
          && s.sent[s.net.anchor[k].id].msg.msgType == H.AnchorFrame)
    && (forall k :: 0 <= k < |s.net.frame| ==>
          s.net.frame[k].Video? && s.net.frame[k].id < |s.sent|
          && s.sent[s.net.frame[k].id].msg.msgType == H.FrameUpdate)
  }

  predicate AllCarry(cfg: Config, sent: seq<Entry>, captures: seq<Capture>) {
    |sent| == |captures| && forall k :: 0 <= k < |sent| ==> Carries(cfg, sent[k], captures[k])
  }

  predicate PoppedIs(cfg: Config, popped: Option<seq<byte>>, last: Option<Frame>) {
    if last.None? then popped == None else popped.Some? && IsPicture(cfg, popped.value, last.value)
  }

  predicate Recorded(cfg: Config, actions: seq<Action>, s: System) {
    && Remembers(s.server, Count(actions), LastAccepted(cfg, actions))
    && PoppedIs(cfg, s.popped, LastCaptured(actions))
    && AllCarry(cfg, s.sent, Accepted(cfg, actions)) && QueuesByType(cfg, s)
  }

  lemma CarrySnoc(cfg: Config, sent: seq<Entry>, captures: seq<Capture>, e: Entry, c: Capture)
    requires AllCarry(cfg, sent, captures) && Carries(cfg, e, c)
    ensures AllCarry(cfg, sent + [e], captures + [c])
  {
    hide Carries;
  }

  lemma QueueGrown(cfg: Config, s: System, t: System, e: Entry, anchor: bool)
    requires QueuesByType(cfg, s) && t.sent == s.sent + [e]
    requires e.msg.msgType == if anchor then H.AnchorFrame else H.FrameUpdate
    requires t.net.anchor == s.net.anchor + if anchor then [Video(|s.sent|)] else []
    requires t.net.frame == s.net.frame + if anchor then [] else [Video(|s.sent|)]
    ensures QueuesByType(cfg, t)
  {}

  lemma OfferTo(q: Queues<Packet>, anchor: bool, m: Packet)
    ensures Accepts(q, anchor) <==> !q.closed && (anchor || |q.frame| < 2)
    ensures Accepts(q, anchor) ==>
              var r := Offer(q, anchor, m);
              && r.anchor == q.anchor + (if anchor then [m] else []) && r.frame == q.frame + (if anchor then [] else [m])
    ensures !Accepts(q, anchor) ==> Offer(q, anchor, m) == q
  {}

  lemma EncodeRecorded(cfg: Config, front: seq<Action>, s: System, batch: seq<Frame>, dropped: bool)
    requires ValidConfig(cfg) && Good(cfg, s) && batch != [] && Allowed(cfg, s, Encode(batch, dropped))
    requires Recorded(cfg, front, s) && s == Run(cfg, front)
    ensures var t := EncodeStep(cfg, s, batch, dropped);
            && Remembers(t.server, Count(front) + 1, HasRoom(cfg, front))
            && t.popped.Some? && IsPicture(cfg, t.popped.value, batch[|batch| - 1]) && QueuesByType(cfg, t)
            && AllCarry(cfg, t.sent, if HasRoom(cfg, front)
                                     then Accepted(cfg, front) + [CaptureOf(cfg, front, Encode(batch, dropped))]
                                     else Accepted(cfg, front))
  {
    hide DraftOf, Encodes, MessageOf, Allowed, ValidConfig, Good, Carries, Run, Accepted, LastAccepted, LastCaptured,
         Count, QueuesByType, AllCarry, IsPicture, Offer, Accepts;
    var c := CaptureOf(cfg, front, Encode(batch, dropped));
    CaptureCarried(cfg, s, batch, dropped, c, LastAccepted(cfg, front));
    var d := DraftOf(cfg, s.server, batch, dropped);
    var t := EncodeStep(cfg, s, batch, dropped);
    var e := Entry(d.picture, MessageOf(cfg, d));
    OfferTo(s.net, d.anchor, Video(|s.sent|));
    if HasRoom(cfg, front) {
      CarrySnoc(cfg, s.sent, Accepted(cfg, front), e, c);
      assert e.msg.msgType == (if d.anchor then H.AnchorFrame else H.FrameUpdate) by { TypeOfCarried(cfg, e, c); }
      QueueGrown(cfg, s, t, e, d.anchor);
    } else {
      QueueKept(cfg, s, t);
    }
  }

  lemma TypeOfCarried(cfg: Config, e: Entry, c: Capture)
    requires Carries(cfg, e, c)
    ensures e.msg.msgType == if IsAnchor(c) then H.AnchorFrame else H.FrameUpdate
  {}

  /** Nothing is added to the queues of messages. */
  lemma QueueKept(cfg: Config, s: System, t: System)
    requires QueuesByType(cfg, s) && t.sent == s.sent
    requires t.net.anchor == s.net.anchor || (s.net.anchor != [] && t.net.anchor == s.net.anchor[1..])
    requires t.net.frame == s.net.frame || (s.net.frame != [] && t.net.frame == s.net.frame[1..])
    ensures QueuesByType(cfg, t)
  {}

  /** The other steps touch neither the server nor what was sent. */
  lemma OtherSteps(cfg: Config, s: System, a: Action)
    requires !Captures(a)
    ensures var t := Step(cfg, s, a);
            && t.server == s.server && t.popped == s.popped && t.sent == s.sent
            && (t.net.anchor == s.net.anchor || (s.net.anchor != [] && t.net.anchor == s.net.anchor[1..]))
            && (t.net.frame == s.net.frame || (s.net.frame != [] && t.net.frame == s.net.frame[1..]))
  {
    hide Receive, Arrival;
  }

  lemma HistoryStep(cfg: Config, front: seq<Action>, a: Action)
    ensures var actions := front + [a];
            && Count(actions) == Count(front) + (if Captures(a) then 1 else 0)
            && LastAccepted(cfg, actions) == (if Captures(a) then HasRoom(cfg, front) else LastAccepted(cfg, front))
            && LastCaptured(actions) == (if Captures(a) then Some(a.batch[|a.batch| - 1]) else LastCaptured(front))
            && Accepted(cfg, actions)
               == (if Captures(a) && HasRoom(cfg, front) then Accepted(cfg, front) + [CaptureOf(cfg, front, a)]
                   else Accepted(cfg, front))
  {
    hide HasRoom, CaptureOf;
    assert (front + [a])[..|front|] == front;
  }

  lemma InitiallyRecorded(cfg: Config)
    ensures Recorded(cfg, [], Run(cfg, []))
  {}

  /** Every run is what its history demands. */
  lemma {:induction false} RunsAreRecorded(cfg: Config, actions: seq<Action>)
    requires ValidConfig(cfg) && ValidRun(cfg, actions)
    ensures Recorded(cfg, actions, Run(cfg, actions))
    decreases |actions|
  {
    hide Good, Allowed, Step, ValidConfig, Recorded;
    if actions == [] {
      InitiallyRecorded(cfg);
    } else {
      var front, a := actions[..|actions| - 1], actions[|actions| - 1];
      RunsAreRecorded(cfg, front);
      RunsAreGood(cfg, front);
      assert front + [a] == actions;
      RecordedStep(cfg, front, a);
    }
  }

  lemma RecordedStep(cfg: Config, front: seq<Action>, a: Action)
    requires ValidConfig(cfg) && Good(cfg, Run(cfg, front)) && Allowed(cfg, Run(cfg, front), a)
    requires Recorded(cfg, front, Run(cfg, front))
    ensures Recorded(cfg, front + [a], Step(cfg, Run(cfg, front), a))
  {
    hide Good, Allowed, ValidConfig, Run, EncodeStep, QueuesByType, AllCarry, IsPicture, HasRoom, CaptureOf, Remembers,
         Count, LastAccepted, LastCaptured, Accepted;
    HistoryStep(cfg, front, a);
    var s := Run(cfg, front);
    if Captures(a) {
      EncodeRecorded(cfg, front, s, a.batch, a.dropped);
    } else {
      OtherSteps(cfg, s, a);
      QueueKept(cfg, s, Step(cfg, s, a));
    }
  }

  // ----- The theorems -----

  /** In every run, the frame popped last is the newest of the last batch, scaled if the session scales;
      and the accepted messages are, one by one, those of the captures that found room: each carries its
      frame's picture and timestamp on stream 1, is an anchor at every 300th capture from the first on
      and a frame update otherwise, and covers the damage or the whole frame as its history demands. */
  lemma MessagesAreCaptures(cfg: Config, actions: seq<Action>)
    requires ValidConfig(cfg) && ValidRun(cfg, actions)
    ensures var s := Run(cfg, actions);
            && PoppedIs(cfg, s.popped, LastCaptured(actions)) && AllCarry(cfg, s.sent, Accepted(cfg, actions))
  {
    hide Run, ValidRun, ValidConfig;
    RunsAreRecorded(cfg, actions);
  }

  /** Of the messages that wait in one of the two queues, exactly the anchors wait in the anchor queue. */
  lemma AnchorsWaitApart(cfg: Config, actions: seq<Action>, id: nat)
    requires ValidConfig(cfg) && ValidRun(cfg, actions)
    requires Video(id) in Run(cfg, actions).net.anchor || Video(id) in Run(cfg, actions).net.frame
    ensures id < |Run(cfg, actions).sent| == |Accepted(cfg, actions)|
    ensures Video(id) in Run(cfg, actions).net.anchor <==> IsAnchor(Accepted(cfg, actions)[id])
  {
    hide Run, ValidRun, ValidConfig, Accepted;
    RunsAreRecorded(cfg, actions);
    var s := Run(cfg, actions);
    assert QueuesByType(cfg, s) && AllCarry(cfg, s.sent, Accepted(cfg, actions));
    assert id < |s.sent|;
    TypeOfCarried(cfg, s.sent[id], Accepted(cfg, actions)[id]);
  }

  /** What the receiver's parser reports of an accepted message: stream 1, type byte 1 for every 300th
      capture and 0 otherwise, the flags compressed and last, the time of the captured frame, and as
      length what is left for the last chunk after chunks of 65536 bytes. */
  lemma DeliveredHeader(cfg: Config, actions: seq<Action>, id: nat)
    requires ValidConfig(cfg) && ValidRun(cfg, actions) && id < |Run(cfg, actions).sent|
    ensures id < |Accepted(cfg, actions)|
    ensures var h, c := Arrival(Run(cfg, actions).sent, Video(id)).header, Accepted(cfg, actions)[id];
            && h.streamId == 1 && h.msgType == (if c.number % 300 == 0 then 1 else 0) && h.flags == 3
            && h.timestampNs == c.frame.timestampNs && |Run(cfg, actions).sent[id].msg.payload| >= 16
            && h.payloadLen == (|Run(cfg, actions).sent[id].msg.payload| - 1) % 65536 + 1
  {
    hide Run, ValidRun, ValidConfig, Accepted, Announces, IsPicture, LastLen;
    RunsAreRecorded(cfg, actions);
    var e, c := Run(cfg, actions).sent[id], Accepted(cfg, actions)[id];
    assert AllCarry(cfg, Run(cfg, actions).sent, Accepted(cfg, actions));
    assert Carries(cfg, e, c);
    AnnouncedLength(cfg, e.msg.payload, c);
    LastLenClosed(|e.msg.payload|, CHUNK_SIZE);
    H.TypeBytes();
  }

  lemma AnnouncedLength(cfg: Config, payload: seq<byte>, c: Capture)
    requires Announces(cfg, payload, c)
    ensures |payload| >= 16
  {
    DeserializeExactly(payload);
  }

  lemma {:induction false} LastOfAccepted(cfg: Config, actions: seq<Action>)
    requires LastAccepted(cfg, actions)
    ensures Accepted(cfg, actions) != []
    ensures LastCaptured(actions) == Some(Accepted(cfg, actions)[|Accepted(cfg, actions)| - 1].frame)
    decreases |actions|
  {
    hide HasRoom;
    if !Captures(actions[|actions| - 1]) {
      LastOfAccepted(cfg, actions[..|actions| - 1]);
    }
  }

  /** The server's base is the picture of the last accepted capture. */
  lemma BaseIsCapture(cfg: Config, actions: seq<Action>, picture: seq<byte>)
    requires ValidConfig(cfg) && ValidRun(cfg, actions) && Accepted(cfg, actions) != []
    requires IsPicture(cfg, picture, Accepted(cfg, actions)[|Accepted(cfg, actions)| - 1].frame)
    ensures ServerBase(cfg, Run(cfg, actions)) == picture
  {
    hide Run, ValidRun, ValidConfig, Accepted, Announces, EntriesOk, Ordered, ClientOk;
    RunsAreRecorded(cfg, actions);
    RunsAreGood(cfg, actions);
    var s, captures := Run(cfg, actions), Accepted(cfg, actions);
    assert AllCarry(cfg, s.sent, captures);
    assert Carries(cfg, s.sent[|s.sent| - 1], captures[|captures| - 1]);
  }

  /** Stop capturing at any moment of any run in which the writer lives, and let it look and the client
      receive as in `Settling.EventuallyAgrees`: the client shows the picture of the last accepted
      capture, and if the last capture was accepted that is the newest frame ever popped. */
  lemma ClientShowsCapture(cfg: Config, actions: seq<Action>, looking: seq<Action>, delivering: seq<Action>,
                           picture: seq<byte>)
    requires ValidConfig(cfg) && ValidRun(cfg, actions) && !Run(cfg, actions).net.closed
    requires OnlyMoves(looking) && OnlyMoves(delivering)
    requires Occurrences(looking, Action.Poll) >= 3 * Settling.Queued(Run(cfg, actions).net)
    requires Occurrences(delivering, Deliver)
             >= |Run(cfg, actions).net.written| + Settling.Queued(Run(cfg, actions).net) - Run(cfg, actions).delivered
    requires Accepted(cfg, actions) != []
    requires IsPicture(cfg, picture, Accepted(cfg, actions)[|Accepted(cfg, actions)| - 1].frame)
    ensures Agree(cfg, ClientBase(cfg, Run(cfg, actions + looking + delivering)), picture)
    ensures LastAccepted(cfg, actions) ==>
              LastCaptured(actions) == Some(Accepted(cfg, actions)[|Accepted(cfg, actions)| - 1].frame)
  {
    hide Run, ValidRun, ValidConfig, Accepted, LastAccepted, LastCaptured, Agree, IsPicture;
    EventuallyAgrees(cfg, actions, looking, delivering);
    BaseIsCapture(cfg, actions, picture);
    if LastAccepted(cfg, actions) {
      LastOfAccepted(cfg, actions);
    }
  }

  /** The same from bytes: a fresh client that has read all the bytes of the loops, in any fragments,
      once their queues are empty, shows the picture of the last accepted capture. */
  lemma AllBytesShowCapture(cfg: Config, actions: seq<Action>, frags: seq<seq<byte>>, picture: seq<byte>)
    requires ValidConfig(cfg) && ValidRun(cfg, actions) && Concat(frags) == Piped(cfg, actions)
    requires ByteRun(cfg, actions).net.anchor == [] && ByteRun(cfg, actions).net.frame == []
    requires Accepted(cfg, actions) != []
    requires IsPicture(cfg, picture, Accepted(cfg, actions)[|Accepted(cfg, actions)| - 1].frame)
    ensures Agree(cfg, Bytes.Resize(ClientAfter(cfg, frags).0.prev, Size(cfg)), picture)
  {
    hide Run, ByteRun, ValidRun, ValidConfig, Accepted, Agree, IsPicture, ClientAfter, Piped, PushAll;
    AllBytes(cfg, actions, frags);
    BaseIsCapture(cfg, actions, picture);
    MirroredQueues(cfg, actions);
  }
}
