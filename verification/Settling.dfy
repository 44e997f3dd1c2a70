/** From every reachable state the two ends can come to agree: while the writer lives, finitely many
    looks at the queues and deliveries empty everything in flight. */
module Settling {
  import opened TransportQueues
  import opened DeliveryOrder
  import opened Client
  import opened Server
  import opened Session
  import opened Convergence
  import opened InFlight

  function Queued(q: Queues<Packet>): nat {
    |q.input| + |q.anchor| + |q.frame|
  }

  /** How many empty queues the writer looks at before it finds a message. */
  function LooksAhead(q: Queues<Packet>): nat {
    match q.turn
    case AtInput => if q.input != [] then 0 else if q.anchor != [] then 1 else 2
    case AtAnchor => if q.anchor != [] then 0 else if q.frame != [] then 1 else 2
    case AtFrame => if q.frame != [] then 0 else if q.input != [] then 1 else 2
  }

  /** More looks than this are never needed: three for every message queued. */
  function LooksNeeded(q: Queues<Packet>): nat {
    if Queued(q) == 0 then 0 else 3 * (Queued(q) - 1) + LooksAhead(q) + 1
  }

  lemma LooksBound(q: Queues<Packet>)
    ensures LooksNeeded(q) <= 3 * Queued(q)
  {}

  /** Every look brings the empty queues closer, and moves what it takes to the pipe. */
  lemma LookProgress(q: Queues<Packet>)
    requires !q.closed
    ensures var r := TransportQueues.Poll(q);
            && !r.closed && (LooksNeeded(q) > 0 ==> LooksNeeded(r) < LooksNeeded(q))
            && (LooksNeeded(q) == 0 ==> LooksNeeded(r) == 0 && r.written == q.written)
            && |q.written| <= |r.written| && |r.written| + Queued(r) == |q.written| + Queued(q)
  {}

  predicate Quiet(s: System) {
    Queued(s.net) == 0 && s.delivered == |s.net.written|
  }

  predicate OnlyMoves(actions: seq<Action>) {
    forall k :: 0 <= k < |actions| ==> actions[k] == Action.Poll || actions[k] == Deliver
  }

  /** How often `a` occurs in a schedule. */
  function Occurrences(actions: seq<Action>, a: Action): nat {
    if actions == [] then 0
    else Occurrences(actions[..|actions| - 1], a) + if actions[|actions| - 1] == a then 1 else 0
  }

  lemma RunSnoc(cfg: Config, actions: seq<Action>, a: Action)
    requires ValidRun(cfg, actions) && Allowed(cfg, Run(cfg, actions), a)
    ensures ValidRun(cfg, actions + [a]) && Run(cfg, actions + [a]) == Step(cfg, Run(cfg, actions), a)
  {
    assert (actions + [a])[..|actions|] == actions;
  }

  lemma GoodCounts(cfg: Config, s: System)
    requires Good(cfg, s)
    ensures s.delivered <= |s.net.written| && !s.fault
  {}

  /** A step of delivery moves the client on and touches nothing else. */
  lemma DeliverProgress(cfg: Config, s: System)
    requires Good(cfg, s)
    ensures var t := Step(cfg, s, Deliver);
            t.net == s.net && t.server == s.server
            && t.delivered == if s.delivered < |s.net.written| then s.delivered + 1 else s.delivered
  {
    hide EntriesOk, Ordered, ServerOk, Receive, Arrival, Acc, HarmlessInput;
    OrderedPartitions(s.net, |s.sent|, s.server.count);
    WrittenKnown(s.net, |s.sent|);
  }

  /** How far some moves have got, whatever their order: every look counts until the queues are
      empty, and every delivery until the client has received all that was written at the start. */
  predicate GotOn(s: System, t: System, looks: nat, deliveries: nat) {
    && !t.net.closed && t.server == s.server && s.delivered <= t.delivered <= |t.net.written|
    && |s.net.written| <= |t.net.written| && |t.net.written| + Queued(t.net) == |s.net.written| + Queued(s.net)
    && (LooksNeeded(t.net) == 0 || LooksNeeded(t.net) + looks <= LooksNeeded(s.net))
    && (LooksNeeded(s.net) == 0 ==> LooksNeeded(t.net) == 0)
    && (|s.net.written| <= t.delivered || s.delivered + deliveries <= t.delivered)
  }

  /** Any schedule of looks and deliveries is a run, and gets on by each of them. */
  lemma {:induction false} MovesGetOn(cfg: Config, actions: seq<Action>, moves: seq<Action>)
    requires ValidConfig(cfg) && ValidRun(cfg, actions) && !Run(cfg, actions).net.closed && OnlyMoves(moves)
    ensures ValidRun(cfg, actions + moves)
    ensures GotOn(Run(cfg, actions), Run(cfg, actions + moves),
                  Occurrences(moves, Action.Poll), Occurrences(moves, Deliver))
    decreases |moves|
  {
    hide Good, Run, ValidRun, LooksNeeded, DeliverStep;
    RunsAreGood(cfg, actions);
    GoodCounts(cfg, Run(cfg, actions));
    if moves == [] {
      assert actions + moves == actions;
    } else {
      var front, a := moves[..|moves| - 1], moves[|moves| - 1];
      MovesGetOn(cfg, actions, front);
      RunSnoc(cfg, actions + front, a);
      assert actions + front + [a] == actions + moves;
      var t := Run(cfg, actions + front);
      RunsAreGood(cfg, actions + front);
      LookProgress(t.net);
      DeliverProgress(cfg, t);
    }
  }

  /** Stop capturing at any moment of any run in which the writer lives. Every schedule that goes on
      with at least three looks for each message queued, and after them with at least as many
      deliveries as packets are still to be received - mixed with any further looks and deliveries -
      leaves nothing in flight, the server untouched, and the client with the server's picture on
      every visible byte. */
  lemma EventuallyAgrees(cfg: Config, actions: seq<Action>, looking: seq<Action>, delivering: seq<Action>)
    requires ValidConfig(cfg) && ValidRun(cfg, actions) && !Run(cfg, actions).net.closed
    requires OnlyMoves(looking) && OnlyMoves(delivering)
    requires Occurrences(looking, Action.Poll) >= 3 * Queued(Run(cfg, actions).net)
    requires Occurrences(delivering, Deliver)
             >= |Run(cfg, actions).net.written| + Queued(Run(cfg, actions).net) - Run(cfg, actions).delivered
    ensures ValidRun(cfg, actions + looking + delivering)
    ensures var s, t := Run(cfg, actions), Run(cfg, actions + looking + delivering);
            Quiet(t) && t.server == s.server && Agree(cfg, ClientBase(cfg, t), ServerBase(cfg, s))
  {
    hide Run, ValidRun, Agree, LooksNeeded;
    MovesGetOn(cfg, actions, looking);
    LooksBound(Run(cfg, actions).net);
    MovesGetOn(cfg, actions + looking, delivering);
    NothingNeeded(Run(cfg, actions + looking).net);
    NothingNeeded(Run(cfg, actions + looking + delivering).net);
    QuiescentAgrees(cfg, actions + looking + delivering);
  }

  lemma NothingNeeded(q: Queues<Packet>)
    ensures LooksNeeded(q) == 0 <==> Queued(q) == 0
  {}
}
