/** In which order messages reach the pipe over whole runs, with senders busy all the time. */
module Priority {
  import opened TransportQueues
  import opened ChunkSender
  import opened DeliveryOrder
  import opened Client
  import opened Server
  import opened Session
  import opened Convergence

  // ----- No message passes an input message that waits -----

  /** At step `j` the writer looked at the input queue and found it empty, and it has written nothing
      from then to the end of the run. */
  predicate FoundNoInput(cfg: Config, actions: seq<Action>, j: nat) {
    && j < |actions| && actions[j] == Action.Poll
    && var q := Run(cfg, actions[..j]).net;
       !q.closed && q.turn == AtInput && q.input == [] && q.written == Run(cfg, actions).net.written
  }

  /** At step `j` it looked at the anchor queue and found that empty. */
  predicate FoundNoAnchor(cfg: Config, actions: seq<Action>, j: nat) {
    && j < |actions| && actions[j] == Action.Poll
    && var q := Run(cfg, actions[..j]).net;
       !q.closed && q.turn == AtAnchor && q.anchor == [] && q.written == Run(cfg, actions).net.written
  }

  ghost predicate NoInputFound(cfg: Config, actions: seq<Action>) {
    exists j: nat :: FoundNoInput(cfg, actions, j)
  }

  ghost predicate NoAnchorFound(cfg: Config, actions: seq<Action>) {
    exists j: nat, k: nat :: j < k && FoundNoInput(cfg, actions, j) && FoundNoAnchor(cfg, actions, k)
  }

  /** Where the writer stands tells what it has found since it last wrote. */
  predicate TurnStays(q: Queues<Packet>, r: Queues<Packet>) {
    r.written == q.written && r.turn == q.turn
  }

  lemma OnlyPollWrites(cfg: Config, s: System, a: Action)
    requires a != Action.Poll
    ensures TurnStays(s.net, Step(cfg, s, a).net)
  {
    hide Receive, Arrival, DraftOf, Encodes, MessageOf;
  }

  lemma FoundEarlier(cfg: Config, actions: seq<Action>, a: Action, j: nat)
    requires Run(cfg, actions + [a]).net.written == Run(cfg, actions).net.written
    ensures FoundNoInput(cfg, actions, j) ==> FoundNoInput(cfg, actions + [a], j)
    ensures FoundNoAnchor(cfg, actions, j) ==> FoundNoAnchor(cfg, actions + [a], j)
  {
    hide Run;
    if j < |actions| {
      assert (actions + [a])[..j] == actions[..j];
    }
  }

  lemma FoundNow(cfg: Config, actions: seq<Action>)
    requires var q := Run(cfg, actions).net;
             !q.closed && Run(cfg, actions + [Action.Poll]).net.written == q.written
    ensures var q := Run(cfg, actions).net;
            && (q.turn == AtInput && q.input == [] ==> FoundNoInput(cfg, actions + [Action.Poll], |actions|))
            && (q.turn == AtAnchor && q.anchor == [] ==> FoundNoAnchor(cfg, actions + [Action.Poll], |actions|))
  {
    hide Run;
    assert (actions + [Action.Poll])[..|actions|] == actions;
  }

  lemma StayFound(cfg: Config, actions: seq<Action>, a: Action)
    requires Run(cfg, actions + [a]).net.written == Run(cfg, actions).net.written
    ensures NoInputFound(cfg, actions) ==> NoInputFound(cfg, actions + [a])
    ensures NoAnchorFound(cfg, actions) ==> NoAnchorFound(cfg, actions + [a])
  {
    hide Run, FoundNoInput, FoundNoAnchor;
    if NoInputFound(cfg, actions) {
      var j: nat :| FoundNoInput(cfg, actions, j);
      FoundEarlier(cfg, actions, a, j);
    }
    if NoAnchorFound(cfg, actions) {
      var j: nat, k: nat :| j < k && FoundNoInput(cfg, actions, j) && FoundNoAnchor(cfg, actions, k);
      FoundEarlier(cfg, actions, a, j);
      FoundEarlier(cfg, actions, a, k);
    }
  }

  lemma FoundBoth(cfg: Config, actions: seq<Action>)
    requires NoInputFound(cfg, actions)
    requires var q := Run(cfg, actions).net;
             !q.closed && q.turn == AtAnchor && q.anchor == []
             && Run(cfg, actions + [Action.Poll]).net.written == q.written
    ensures NoAnchorFound(cfg, actions + [Action.Poll])
  {
    hide Run;
    var j: nat :| FoundNoInput(cfg, actions, j);
    FoundEarlier(cfg, actions, Action.Poll, j);
    FoundNow(cfg, actions);
    assert j < |actions|;
  }

  lemma LastAction(cfg: Config, actions: seq<Action>, a: Action)
    ensures Run(cfg, actions + [a]) == Step(cfg, Run(cfg, actions), a)
  {
    assert (actions + [a])[..|actions|] == actions;
  }

  /** Whatever is sent in between: while the writer is about to look at the anchors, it has found the
      input queue empty since it last wrote, and while it is about to look at the frames, after that
      the anchor queue too. */
  lemma {:induction false} TurnTells(cfg: Config, actions: seq<Action>)
    ensures Run(cfg, actions).net.turn == AtAnchor ==> NoInputFound(cfg, actions)
    ensures Run(cfg, actions).net.turn == AtFrame ==> NoAnchorFound(cfg, actions)
    decreases |actions|
  {
    hide Run, NoInputFound, NoAnchorFound, FoundNoInput, FoundNoAnchor, Step;
    if actions == [] {
      StartsAtInput(cfg);
    } else {
      var front, a := actions[..|actions| - 1], actions[|actions| - 1];
      assert front + [a] == actions;
      TurnTells(cfg, front);
      LastAction(cfg, front, a);
      TurnTellsStep(cfg, front, a);
    }
  }

  lemma StartsAtInput(cfg: Config)
    ensures Run(cfg, []).net.turn == AtInput
  {}

  lemma TurnTellsStep(cfg: Config, front: seq<Action>, a: Action)
    requires Run(cfg, front).net.turn == AtAnchor ==> NoInputFound(cfg, front)
    requires Run(cfg, front).net.turn == AtFrame ==> NoAnchorFound(cfg, front)
    ensures Run(cfg, front + [a]).net.turn == AtAnchor ==> NoInputFound(cfg, front + [a])
    ensures Run(cfg, front + [a]).net.turn == AtFrame ==> NoAnchorFound(cfg, front + [a])
  {
    hide Run, NoAnchorFound, FoundNoInput, FoundNoAnchor, EncodeStep, DeliverStep;
    LastAction(cfg, front, a);
    var s := Run(cfg, front);
    if a != Action.Poll {
      OnlyPollWrites(cfg, s, a);
      StayFound(cfg, front, a);
    } else if Run(cfg, front + [a]).net.written == s.net.written {
      StayFound(cfg, front, a);
      if !s.net.closed {
        FoundNow(cfg, front);
        if s.net.turn == AtAnchor && s.net.anchor == [] {
          FoundBoth(cfg, front);
        }
      }
    } else {
      WriteRestarts(s.net);
    }
  }

  /** Priority in every run: a message that is not an input is written only if, since the last write,
      the writer has found the input queue empty; and a frame only if it has then found the anchor
      queue empty as well. */
  lemma NothingPassesInput(cfg: Config, actions: seq<Action>)
    requires var s, t := Run(cfg, actions).net, Run(cfg, actions + [Action.Poll]).net;
             t.written != s.written && t.input == s.input
    ensures var s, t := Run(cfg, actions).net, Run(cfg, actions + [Action.Poll]).net;
            && t.turn == AtInput && NoInputFound(cfg, actions)
            && (t.anchor == s.anchor ==> NoAnchorFound(cfg, actions))
  {
    hide Run, NoAnchorFound, FoundNoInput, FoundNoAnchor;
    LastAction(cfg, actions, Action.Poll);
    TurnTells(cfg, actions);
    WriteRestarts(Run(cfg, actions).net);
    if NoAnchorFound(cfg, actions) {
      BothFound(cfg, actions);
    }
  }

  lemma BothFound(cfg: Config, actions: seq<Action>)
    requires NoAnchorFound(cfg, actions)
    ensures NoInputFound(cfg, actions)
  {}

  // ----- After the writer has failed -----

  lemma ClosedStep(cfg: Config, s: System, q: Queues<Packet>, a: Action)
    requires s.net == TransportQueues.Close(q)
    ensures Step(cfg, s, a).net == s.net
  {
    hide Receive, Arrival, DraftOf, Encodes, MessageOf;
    match a
    case Encode(batch, dropped) =>
      if batch != [] {
        ClosedForGood(q, Video(|s.sent|));
      }
    case SendInput(input) => ClosedForGood(q, Input(input));
    case _ => ClosedForGood(q, Video(0));
  }

  /** Whatever the run goes on with after the writer has failed, the pipe and the queues stay as they
      were then. */
  lemma {:induction false} NothingAfterFailure(cfg: Config, actions: seq<Action>, more: seq<Action>)
    ensures Run(cfg, actions + [Action.Close] + more).net == TransportQueues.Close(Run(cfg, actions).net)
    decreases |more|
  {
    hide Run, Step;
    var closed := actions + [Action.Close];
    if more == [] {
      assert closed + more == closed;
      LastAction(cfg, actions, Action.Close);
      CloseStep(cfg, Run(cfg, actions));
    } else {
      var front, a := more[..|more| - 1], more[|more| - 1];
      NothingAfterFailure(cfg, actions, front);
      assert closed + front + [a] == closed + more;
      LastAction(cfg, closed + front, a);
      ClosedStep(cfg, Run(cfg, closed + front), Run(cfg, actions).net, a);
    }
  }

  lemma CloseStep(cfg: Config, s: System)
    ensures Step(cfg, s, Action.Close).net == TransportQueues.Close(s.net)
  {}

  // ----- Inputs keep their order -----

  /** The input messages sent while the writer lived. */
  function InputsSent(cfg: Config, actions: seq<Action>): seq<Packet> {
    if actions == [] then []
    else
      var front, a := actions[..|actions| - 1], actions[|actions| - 1];
      if a.SendInput? && !Run(cfg, front).net.closed then InputsSent(cfg, front) + [Input(a.input)]
      else InputsSent(cfg, front)
  }

  /** The input messages of a stretch of the pipe. */
  function Inputs(w: seq<Packet>): seq<Packet> {
    if w == [] then []
    else
      var before := Inputs(w[..|w| - 1]);
      if w[|w| - 1].Input? then before + [w[|w| - 1]] else before
  }

  lemma InputsSnoc(w: seq<Packet>, p: Packet)
    ensures Inputs(w + [p]) == if p.Input? then Inputs(w) + [p] else Inputs(w)
  {
    assert (w + [p])[..|w|] == w;
  }

  /** What has been written and what waits, in order. */
  function InputsKept(q: Queues<Packet>): seq<Packet> {
    Inputs(q.written) + q.input
  }

  lemma PollKeepsInputs(q: Queues<Packet>)
    requires AllInput(q.input) && AllVideo(q.anchor) && AllVideo(q.frame)
    ensures InputsKept(TransportQueues.Poll(q)) == InputsKept(q)
  {
    if q.input != [] {
      InputsSnoc(q.written, q.input[0]);
      assert (Inputs(q.written) + [q.input[0]]) + q.input[1..] == Inputs(q.written) + q.input;
    }
    if q.anchor != [] { InputsSnoc(q.written, q.anchor[0]); }
    if q.frame != [] { InputsSnoc(q.written, q.frame[0]); }
  }

  lemma StepKeepsInputs(cfg: Config, s: System, a: Action)
    requires AllInput(s.net.input) && AllVideo(s.net.anchor) && AllVideo(s.net.frame)
    ensures InputsKept(Step(cfg, s, a).net)
            == if a.SendInput? && !s.net.closed then InputsKept(s.net) + [Input(a.input)] else InputsKept(s.net)
  {
    hide Receive, Arrival, DraftOf, Encodes, MessageOf, Inputs;
    match a
    case Poll => PollKeepsInputs(s.net);
    case SendInput(input) =>
      assert Inputs(s.net.written) + (s.net.input + [Input(input)]) == InputsKept(s.net) + [Input(input)];
    case _ =>
  }

  lemma GoodQueues(cfg: Config, s: System)
    requires Good(cfg, s)
    ensures AllInput(s.net.input) && AllVideo(s.net.anchor) && AllVideo(s.net.frame)
  {
    hide EntriesOk, ServerOk, ClientOk;
  }

  /** In every run the input messages on the pipe, and after them those that wait, are the ones sent
      while the writer lived, in the order in which they were sent. */
  lemma {:induction false} InputsInOrder(cfg: Config, actions: seq<Action>)
    requires ValidConfig(cfg) && ValidRun(cfg, actions)
    ensures InputsKept(Run(cfg, actions).net) == InputsSent(cfg, actions)
    decreases |actions|
  {
    hide Good, Step, InputsKept, ValidConfig, Allowed;
    if actions == [] {
      NothingKept();
    } else {
      var front := actions[..|actions| - 1];
      InputsInOrder(cfg, front);
      RunsAreGood(cfg, front);
      GoodQueues(cfg, Run(cfg, front));
      StepKeepsInputs(cfg, Run(cfg, front), actions[|actions| - 1]);
    }
  }

  lemma NothingKept()
    ensures InputsKept(Initial.net) == []
  {}
}
