/** How far an anchor really overtakes: in some run of every session, two older messages are missing. */
module Overtaking {
  import opened Bytes
  import opened Delta
  import opened TransportQueues
  import opened DeliveryOrder
  import opened Client
  import opened Server
  import opened Session
  import opened Convergence
  import opened InFlight
  import opened Settling

  /** A frame without damage information. */
  function Still(cfg: Config): Frame {
    Frame(Zeros(cfg.rawSize), [], 0)
  }

  function Capture(cfg: Config): Action {
    Encode([Still(cfg)], false)
  }

  /** Packets 0 .. k - 1, in order. */
  function InOrder(k: nat): (w: seq<Packet>)
    ensures |w| == k && forall j :: 0 <= j < k ==> w[j] == Video(j)
  {
    seq(k, (j: nat) => Video(j))
  }

  /** `k` frames have been captured, accepted, written and delivered, one after the other. */
  predicate Idle(s: System, k: nat) {
    s.server.count == |s.sent| == s.delivered == k
    && s.net == Queues([], [], [], AtInput, InOrder(k), false)
  }

  lemma StillAllowed(cfg: Config, s: System)
    ensures Allowed(cfg, s, Capture(cfg))
  {}

  /** Whatever the state, a still frame may be captured. It is accepted by its queue if that has
      room, as an anchor at every multiple of the anchor interval. */
  lemma CaptureStill(cfg: Config, s: System)
    requires ValidConfig(cfg) && Good(cfg, s) && Accepts(s.net, s.server.count % ANCHOR_INTERVAL == 0)
    ensures Allowed(cfg, s, Capture(cfg))
    ensures var t := Step(cfg, s, Capture(cfg));
            && t.server.count == s.server.count + 1 && |t.sent| == |s.sent| + 1 && t.delivered == s.delivered
            && t.net == Offer(s.net, s.server.count % ANCHOR_INTERVAL == 0, Video(|s.sent|))
  {
    hide Ordered, EntriesOk, ClientOk, Encodes, MessageOf, Allowed, ValidConfig, Picture, Offer, Accepts;
    StillAllowed(cfg, s);
    NeverPanics(cfg, s, [Still(cfg)], false);
  }

  /** Captures one still frame at the end of a run. */
  lemma CaptureNext(cfg: Config, actions: seq<Action>) returns (next: seq<Action>)
    requires ValidConfig(cfg) && ValidRun(cfg, actions)
    requires Accepts(Run(cfg, actions).net, Run(cfg, actions).server.count % ANCHOR_INTERVAL == 0)
    ensures ValidRun(cfg, next)
    ensures var s, t := Run(cfg, actions), Run(cfg, next);
            && t.server.count == s.server.count + 1 && |t.sent| == |s.sent| + 1 && t.delivered == s.delivered
            && t.net == Offer(s.net, s.server.count % ANCHOR_INTERVAL == 0, Video(|s.sent|))
  {
    hide Run, ValidRun, Good, Allowed, Step;
    RunsAreGood(cfg, actions);
    CaptureStill(cfg, Run(cfg, actions));
    RunSnoc(cfg, actions, Capture(cfg));
    next := actions + [Capture(cfg)];
  }

  /** Lets the writer look `n` times. */
  lemma LookNext(cfg: Config, actions: seq<Action>, n: nat) returns (next: seq<Action>)
    requires ValidRun(cfg, actions)
    ensures ValidRun(cfg, next) && Run(cfg, next) == Run(cfg, actions).(net := Looks(Run(cfg, actions).net, n))
  {
    hide Run, ValidRun;
    if n == 0 {
      next := actions;
    } else {
      var before := LookNext(cfg, actions, n - 1);
      RunSnoc(cfg, before, Action.Poll);
      next := before + [Action.Poll];
    }
  }

  /** Delivers everything written. */
  lemma DeliverNext(cfg: Config, actions: seq<Action>) returns (next: seq<Action>)
    requires ValidConfig(cfg) && ValidRun(cfg, actions)
    ensures ValidRun(cfg, next)
    ensures var s, t := Run(cfg, actions), Run(cfg, next);
            t.net == s.net && t.server == s.server && t.sent == s.sent && t.delivered == |s.net.written|
    decreases |Run(cfg, actions).net.written| - Run(cfg, actions).delivered
  {
    hide Run, ValidRun, Good, DeliverStep;
    var s := Run(cfg, actions);
    RunsAreGood(cfg, actions);
    GoodCounts(cfg, s);
    if s.delivered == |s.net.written| {
      next := actions;
    } else {
      DeliverProgress(cfg, s);
      DeliverKeepsSent(cfg, s);
      RunSnoc(cfg, actions, Deliver);
      next := DeliverNext(cfg, actions + [Deliver]);
    }
  }

  lemma DeliverKeepsSent(cfg: Config, s: System)
    ensures Step(cfg, s, Deliver).sent == s.sent
  {
    hide Receive, Arrival;
  }

  lemma WriteAnchor(q: Queues<Packet>, m: Packet)
    requires q.input == [] && q.anchor == [m] && q.turn == AtInput && !q.closed
    ensures Looks(q, 2) == q.(anchor := [], written := q.written + [m])
  {
    assert Looks(q, 1) == TransportQueues.Poll(Looks(q, 0));
  }

  lemma WriteFrame(q: Queues<Packet>, m: Packet)
    requires q.input == [] && q.anchor == [] && q.frame == [m] && q.turn == AtInput && !q.closed
    ensures Looks(q, 3) == q.(frame := [], written := q.written + [m])
  {
    assert Looks(q, 1) == TransportQueues.Poll(Looks(q, 0)) == q.(turn := AtAnchor);
    assert Looks(q, 2) == q.(turn := AtFrame);
  }

  /** One more frame, captured, written and delivered at rest. */
  lemma OneMore(cfg: Config, actions: seq<Action>, k: nat) returns (next: seq<Action>)
    requires ValidConfig(cfg) && ValidRun(cfg, actions) && Idle(Run(cfg, actions), k)
    ensures ValidRun(cfg, next) && Idle(Run(cfg, next), k + 1)
  {
    hide Run, ValidRun, Looks;
    var captured := CaptureNext(cfg, actions);
    var q := Run(cfg, captured).net;
    var written;
    if k % ANCHOR_INTERVAL == 0 {
      WriteAnchor(q, Video(k));
      written := LookNext(cfg, captured, 2);
    } else {
      WriteFrame(q, Video(k));
      written := LookNext(cfg, captured, 3);
    }
    assert InOrder(k) + [Video(k)] == InOrder(k + 1);
    next := DeliverNext(cfg, written);
  }

  lemma {:induction false} ManyMore(cfg: Config, k: nat) returns (actions: seq<Action>)
    requires ValidConfig(cfg)
    ensures ValidRun(cfg, actions) && Idle(Run(cfg, actions), k)
  {
    if k == 0 {
      actions := [];
      assert Run(cfg, actions) == Initial;
    } else {
      var before := ManyMore(cfg, k - 1);
      actions := OneMore(cfg, before, k - 1);
    }
  }

  /** The bound on what is missing is reached in some run of every session, at the first periodic
      anchor: two frames wait while it is queued, and it is received before both. */
  lemma BoundIsReached(cfg: Config) returns (actions: seq<Action>, d: nat)
    requires ValidConfig(cfg)
    ensures ValidRun(cfg, actions)
    ensures var s := Run(cfg, actions);
            && s.delivered <= |s.net.written| && Video(d) in Received(s)
            && |set x: nat | x < d && Video(x) !in Received(s)| == FRAME_QUEUE_DEPTH
  {
    hide Run, ValidRun, Looks;
    d := ANCHOR_INTERVAL;
    var idle := ManyMore(cfg, d - 2);
    var one := CaptureNext(cfg, idle);
    var two := CaptureNext(cfg, one);
    var three := CaptureNext(cfg, two);
    WriteAnchor(Run(cfg, three).net, Video(d));
    var written := LookNext(cfg, three, 2);
    actions := DeliverNext(cfg, written);
    var s := Run(cfg, actions);
    assert Received(s) == InOrder(d - 2) + [Video(d)];
    LacksTwo(Received(s), d);
  }

  lemma LacksTwo(w: seq<Packet>, d: nat)
    requires d >= 2 && w == InOrder(d - 2) + [Video(d)]
    ensures |set x: nat | x < d && Video(x) !in w| == 2
  {
    var missing := set x: nat | x < d && Video(x) !in w;
    forall x: nat ensures x in missing <==> x == d - 2 || x == d - 1 {
      InOrderHas(d - 2, x);
      assert Video(x) in w <==> Video(x) in InOrder(d - 2) || x == d;
    }
    assert missing == {d - 2, d - 1};
  }

  lemma InOrderHas(k: nat, x: nat)
    ensures Video(x) in InOrder(k) <==> x < k
  {
    if x < k {
      assert InOrder(k)[x] == Video(x);
    }
  }
}
