/** The sender's three queues and the writer that drains them into the pipe. */
module TransportQueues {
  import opened Bytes

  const FRAME_QUEUE_DEPTH := 2

  /** The next queue the writer looks at in its current pass. A pass polls the queues in priority
      order and starts over once it has found a message or come to the end. */
  datatype Turn = AtInput | AtAnchor | AtFrame

  /** `written` is everything handed to the pipe so far, in order. */
  datatype Queues<T> = Queues(input: seq<T>, anchor: seq<T>, frame: seq<T>, turn: Turn, written: seq<T>, closed: bool)

  function EmptyQueues<T>(): Queues<T> {
    Queues([], [], [], AtInput, [], false)
  }

  predicate AcceptsFrame<T>(q: Queues<T>) {
    !q.closed && |q.frame| < FRAME_QUEUE_DEPTH
  }

  function OfferInput<T>(q: Queues<T>, m: T): Queues<T> {
    if q.closed then q else q.(input := q.input + [m])
  }

  function OfferAnchor<T>(q: Queues<T>, m: T): Queues<T> {
    if q.closed then q else q.(anchor := q.anchor + [m])
  }

  function OfferFrame<T>(q: Queues<T>, m: T): Queues<T> {
    if AcceptsFrame(q) then q.(frame := q.frame + [m]) else q
  }

  /** One look of the writer at one queue. Senders may run between any two looks. */
  function Poll<T>(q: Queues<T>): Queues<T> {
    if q.closed then q
    else
      match q.turn
      case AtInput =>
        if q.input == [] then q.(turn := AtAnchor)
        else q.(input := q.input[1..], written := q.written + [q.input[0]])
      case AtAnchor =>
        if q.anchor == [] then q.(turn := AtFrame)
        else q.(anchor := q.anchor[1..], turn := AtInput, written := q.written + [q.anchor[0]])
      case AtFrame =>
        if q.frame == [] then q.(turn := AtInput)
        else q.(frame := q.frame[1..], turn := AtInput, written := q.written + [q.frame[0]])
  }

  /** The writer has failed: its receivers are gone and what is still queued is lost. */
  function Close<T>(q: Queues<T>): Queues<T> {
    q.(closed := true)
  }

  class TransportSender<T> {
    var input: seq<T>
    var anchor: seq<T>
    var frame: seq<T>
    var turn: Turn
    var written: seq<T>
    var closed: bool

    constructor ()
      ensures State() == EmptyQueues()
    {
      input, anchor, frame, turn, written, closed := [], [], [], AtInput, [], false;
    }

    function State(): Queues<T>
      reads this
    {
      Queues(input, anchor, frame, turn, written, closed)
    }

    method SendInput(m: T) returns (ok: bool)
      modifies this
      ensures ok == !old(closed) && State() == OfferInput(old(State()), m)
    {
      if closed {
        return false;
      }
      input := input + [m];
      return true;
    }

    method SendAnchor(m: T) returns (ok: bool)
      modifies this
      ensures ok == !old(closed) && State() == OfferAnchor(old(State()), m)
    {
      if closed {
        return false;
      }
      anchor := anchor + [m];
      return true;
    }

    method TrySendFrame(m: T) returns (ok: bool)
      modifies this
      ensures ok == AcceptsFrame(old(State())) && State() == OfferFrame(old(State()), m)
    {
      if closed || |frame| >= FRAME_QUEUE_DEPTH {
        return false;
      }
      frame := frame + [m];
      return true;
    }

    /** One look of the writer at one queue; a pass is up to three of them. */
    method Look()
      modifies this
      ensures State() == Poll(old(State()))
    {
      if closed {
        return;
      }
      match turn
      case AtInput =>
        if input == [] {
          turn := AtAnchor;
        } else {
          written, input := written + [input[0]], input[1..];
        }
      case AtAnchor =>
        if anchor == [] {
          turn := AtFrame;
        } else {
          written, anchor, turn := written + [anchor[0]], anchor[1..], AtInput;
        }
      case AtFrame =>
        if frame == [] {
          turn := AtInput;
        } else {
          written, frame, turn := written + [frame[0]], frame[1..], AtInput;
        }
    }

    /** The writer has failed. */
    method Disconnect()
      modifies this
      ensures State() == Close(old(State()))
    {
      closed := true;
    }

    /** The writer's loop body: it looks at the queues in priority order and hands the first
        message it finds to the pipe. Nothing is sent while this runs. */
    method WritePass() returns (found: bool)
      requires turn == AtInput && !closed
      modifies this
      ensures turn == AtInput
      ensures found <==> old(input) != [] || old(anchor) != [] || old(frame) != []
      ensures found ==>
                var first := if old(input) != [] then old(input)[0]
                             else if old(anchor) != [] then old(anchor)[0] else old(frame)[0];
                written == old(written) + [first]
      ensures old(input) != [] ==> State() == Poll(old(State()))
      ensures old(input) == [] && old(anchor) != [] ==> State() == Poll(Poll(old(State())))
      ensures old(input) == [] && old(anchor) == [] ==> State() == Poll(Poll(Poll(old(State()))))
    {
      if input != [] {
        written, input := written + [input[0]], input[1..];
        return true;
      }
      if anchor != [] {
        written, anchor := written + [anchor[0]], anchor[1..];
        return true;
      }
      if frame != [] {
        written, frame := written + [frame[0]], frame[1..];
        return true;
      }
      return false;
    }
  }

  // ----- What the pipe may see -----

  /** Every message the session has taken on, written or still queued. */
  function Contents<T>(q: Queues<T>): multiset<T> {
    multiset(q.written) + multiset(q.input) + multiset(q.anchor) + multiset(q.frame)
  }

  lemma HeadMoves<T>(w: seq<T>, s: seq<T>)
    requires s != []
    ensures multiset(w + [s[0]]) == multiset(w) + multiset{s[0]} && multiset(s) == multiset{s[0]} + multiset(s[1..])
  {
    assert s == [s[0]] + s[1..];
  }

  lemma Regroup<T>(w: multiset<T>, x: multiset<T>, a: multiset<T>, b: multiset<T>, c: multiset<T>)
    ensures (w + x) + a + b + c == w + (x + a) + b + c == w + a + (x + b) + c == w + a + b + (x + c)
  {}

  /** The writer neither loses, duplicates nor invents a message. */
  lemma PollConserves<T>(q: Queues<T>)
    ensures Contents(Poll(q)) == Contents(q)
  {
    var w, i, a, f := q.written, q.input, q.anchor, q.frame;
    match q.turn
    case AtInput =>
      if i != [] {
        HeadMoves(w, i);
        Regroup(multiset(w), multiset{i[0]}, multiset(i[1..]), multiset(a), multiset(f));
      }
    case AtAnchor =>
      if a != [] {
        HeadMoves(w, a);
        Regroup(multiset(w), multiset{a[0]}, multiset(i), multiset(a[1..]), multiset(f));
      }
    case AtFrame =>
      if f != [] {
        HeadMoves(w, f);
        Regroup(multiset(w), multiset{f[0]}, multiset(i), multiset(a), multiset(f[1..]));
      }
  }

  /** Once the writer has failed, nothing is taken on and nothing written, whatever is tried. */
  lemma ClosedForGood<T>(q: Queues<T>, m: T)
    ensures var r := Close(q);
            && r.written == q.written && r.input == q.input && r.anchor == q.anchor && r.frame == q.frame
            && Poll(r) == r && Close(r) == r && OfferInput(r, m) == r && OfferAnchor(r, m) == r && OfferFrame(r, m) == r
  {}

  // ----- The order of priority -----

  /** A look that writes a message ends the pass: the next one starts at the input queue. */
  lemma WriteRestarts<T>(q: Queues<T>)
    requires Poll(q).written != q.written
    ensures Poll(q).turn == AtInput
  {}

  /** `n` looks with nobody sending. */
  function Looks<T>(q: Queues<T>, n: nat): Queues<T> {
    if n == 0 then q else Poll(Looks(q, n - 1))
  }

  lemma {:induction false} LooksSplit<T>(q: Queues<T>, m: nat, n: nat)
    ensures Looks(q, m + n) == Looks(Looks(q, m), n)
  {
    hide Poll;
    if n > 0 {
      LooksSplit(q, m, n - 1);
      assert m + n - 1 == m + (n - 1);
    }
  }

  predicate NoneQueued<T(==)>(q: Queues<T>) {
    q.input == [] && q.anchor == [] && q.frame == []
  }

  lemma {:induction false} NothingToWrite<T>(q: Queues<T>, n: nat)
    requires NoneQueued(q)
    ensures NoneQueued(Looks(q, n)) && Looks(q, n).written == q.written
  {
    if n > 0 {
      NothingToWrite(q, n - 1);
    }
  }

  /** One look for an input message, two for an anchor, three for a frame. */
  function LooksToDrain<T>(q: Queues<T>): nat {
    |q.input| + 2 * |q.anchor| + 3 * |q.frame|
  }

  /** From the start of a pass, undisturbed: the writer's first message is the first in priority
      order, and it is back at the start of a pass. */
  lemma FirstWritten<T>(q: Queues<T>)
    requires !q.closed && q.turn == AtInput
    ensures q.input != [] ==> Looks(q, 1) == q.(input := q.input[1..], written := q.written + [q.input[0]])
    ensures q.input == [] && q.anchor != [] ==>
              Looks(q, 2) == q.(anchor := q.anchor[1..], written := q.written + [q.anchor[0]])
    ensures q.input == [] && q.anchor == [] && q.frame != [] ==>
              Looks(q, 3) == q.(frame := q.frame[1..], written := q.written + [q.frame[0]])
  {
    assert Looks(q, 1) == Poll(Looks(q, 0)) == Poll(q);
    assert Looks(q, 2) == Poll(Looks(q, 1)) && Looks(q, 3) == Poll(Looks(q, 2));
  }

  lemma HeadFirst<T>(w: seq<T>, s: seq<T>, rest: seq<T>)
    requires s != []
    ensures (w + [s[0]]) + (s[1..] + rest) == w + (s + rest)
  {
    assert s == [s[0]] + s[1..];
  }

  /** The law of priority over many looks: left alone, the writer hands the pipe all input messages,
      then all anchors, then all frames, each queue in its order. */
  lemma {:induction false} DrainsInOrder<T>(q: Queues<T>, n: nat)
    requires !q.closed && q.turn == AtInput && n >= LooksToDrain(q)
    ensures NoneQueued(Looks(q, n)) && Looks(q, n).written == q.written + (q.input + (q.anchor + q.frame))
    decreases LooksToDrain(q)
  {
    hide Looks, NoneQueued, Poll;
    FirstWritten(q);
    if q.input != [] {
      LooksSplit(q, 1, n - 1);
      DrainsInOrder(Looks(q, 1), n - 1);
      HeadFirst(q.written, q.input, q.anchor + q.frame);
    } else if q.anchor != [] {
      LooksSplit(q, 2, n - 2);
      DrainsInOrder(Looks(q, 2), n - 2);
      HeadFirst(q.written, q.anchor, q.frame);
      AppendEmpty(q.anchor + q.frame);
      AppendEmpty(q.anchor[1..] + q.frame);
    } else if q.frame != [] {
      LooksSplit(q, 3, n - 3);
      DrainsInOrder(Looks(q, 3), n - 3);
      HeadFirst(q.written, q.frame, []);
      EmptySides(q.frame);
      EmptySides(q.frame[1..]);
    } else {
      assert NoneQueued(q) by { AllEmpty(q); }
      NothingToWrite(q, n);
      EmptySides(q.frame);
    }
  }

  lemma AllEmpty<T>(q: Queues<T>)
    requires q.input == [] && q.anchor == [] && q.frame == []
    ensures NoneQueued(q)
  {}

  lemma EmptySides<T>(s: seq<T>)
    ensures [] + ([] + s) == s && s + [] == s && forall w: seq<T> :: w + [] == w
  {}

  /** What has been written stays written, in its order. */
  lemma PollExtends<T>(q: Queues<T>)
    ensures var r := Poll(q);
            |q.written| <= |r.written| <= |q.written| + 1 && r.written[..|q.written|] == q.written
  {}
}
