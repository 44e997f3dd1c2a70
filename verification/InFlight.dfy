/** The main theorems about a session: conservation between the two bases, agreement of the
    pictures, and the bound on what is missing. */
module InFlight {
  import opened Bytes
  import Delta
  import opened TransportQueues
  import opened DeliveryOrder
  import opened Server
  import opened Session
  import opened Convergence

  // ----- Order does not matter -----

  /** Exactly the first `j` accepted messages, in whatever order, each once. */
  ghost predicate Permutes(w: seq<Packet>, j: nat) {
    forall x: nat :: multiset(w)[Video(x)] == if x < j then 1 else 0
  }

  function Flip(a: byte, b: byte): byte {
    a ^ b
  }

  lemma FlipRegroups(a: byte, b: byte, c: byte)
    ensures Flip(a, Flip(b, c)) == Flip(Flip(a, b), c) && Flip(Flip(a, b), c) == Flip(Flip(a, c), b)
  {}

  lemma FlipZero(a: byte)
    ensures Flip(a, 0) == a
  {}

  lemma XorAt(a: seq<byte>, b: seq<byte>, i: nat)
    requires |a| == |b| && i < |a|
    ensures Xor(a, b)[i] == Flip(a[i], b[i])
  {}

  lemma {:induction false} AccConcat(cfg: Config, sent: seq<Entry>, a: seq<Packet>, b: seq<Packet>, i: nat)
    requires i < Size(cfg)
    ensures Acc(cfg, sent, a + b)[i] == Flip(Acc(cfg, sent, a)[i], Acc(cfg, sent, b)[i])
  {
    hide Flip, MaskOf, Acc, Xor;
    if b == [] {
      assert a + b == a;
      AccEmpty(cfg, sent, i);
      FlipZero(Acc(cfg, sent, a)[i]);
    } else {
      var front, p := b[..|b| - 1], b[|b| - 1];
      AccConcat(cfg, sent, a, front, i);
      assert (a + front) + [p] == a + b && front + [p] == b;
      AccSnoc(cfg, sent, a + front, p);
      AccSnoc(cfg, sent, front, p);
      if p.Video? {
        var m := MaskOf(cfg, sent, p.id);
        XorAt(Acc(cfg, sent, a + front), m, i);
        XorAt(Acc(cfg, sent, front), m, i);
        FlipRegroups(Acc(cfg, sent, a)[i], Acc(cfg, sent, front)[i], m[i]);
      }
    }
  }

  lemma AccEmpty(cfg: Config, sent: seq<Entry>, i: nat)
    requires i < Size(cfg)
    ensures Acc(cfg, sent, [])[i] == 0
  {}

  lemma AccOne(cfg: Config, sent: seq<Entry>, id: nat, i: nat)
    requires i < Size(cfg)
    ensures Acc(cfg, sent, [Video(id)])[i] == MaskOf(cfg, sent, id)[i]
  {
    AccSnoc(cfg, sent, [], Video(id));
    assert [] + [Video(id)] == [Video(id)];
  }

  /** Taking one message out of the stretch takes its mask out of the effect. */
  lemma AccWithout(cfg: Config, sent: seq<Entry>, w: seq<Packet>, k: nat, i: nat)
    requires k < |w| && w[k].Video? && i < Size(cfg)
    ensures Acc(cfg, sent, w)[i] == Flip(Acc(cfg, sent, w[..k] + w[k + 1..])[i], MaskOf(cfg, sent, w[k].id)[i])
  {
    hide Flip, MaskOf, Acc;
    var a, b := w[..k], w[k + 1..];
    assert w == a + [w[k]] + b;
    AccConcat(cfg, sent, a + [w[k]], b, i);
    AccConcat(cfg, sent, a, [w[k]], i);
    AccConcat(cfg, sent, a, b, i);
    AccOne(cfg, sent, w[k].id, i);
    FlipRegroups(Acc(cfg, sent, a)[i], MaskOf(cfg, sent, w[k].id)[i], Acc(cfg, sent, b)[i]);
  }

  lemma {:induction false} AccOfInputs(cfg: Config, sent: seq<Entry>, w: seq<Packet>, i: nat)
    requires AllInput(w) && i < Size(cfg)
    ensures Acc(cfg, sent, w)[i] == 0
  {
    hide Acc, Size;
    if w == [] {
      AccEmpty(cfg, sent, i);
    } else {
      var front, p := w[..|w| - 1], w[|w| - 1];
      AccOfInputs(cfg, sent, front, i);
      assert front + [p] == w;
      AccSnoc(cfg, sent, front, p);
    }
  }

  /** Message `k` leads from picture to picture on visible bytes. */
  lemma EntryMoves(cfg: Config, sent: seq<Entry>, k: nat, i: nat)
    requires EntriesOk(cfg, sent) && k < |sent| && i < Size(cfg) && Visible(cfg, i)
    ensures |BaseOf(cfg, sent, k)| == |BaseOf(cfg, sent, k + 1)| == Size(cfg)
    ensures BaseOf(cfg, sent, k + 1)[i] == Flip(BaseOf(cfg, sent, k)[i], MaskOf(cfg, sent, k)[i])
  {
    EntryAt(cfg, sent, k);
    XorAt(BaseOf(cfg, sent, k), MaskOf(cfg, sent, k), i);
  }

  lemma BaseSize(cfg: Config, sent: seq<Entry>, k: nat)
    requires EntriesOk(cfg, sent) && k <= |sent|
    ensures |BaseOf(cfg, sent, k)| == Size(cfg)
  {
    if k > 0 {
      EntryAt(cfg, sent, k - 1);
    }
  }

  lemma RemoveCounts(w: seq<Packet>, k: nat)
    requires k < |w|
    ensures multiset(w[..k] + w[k + 1..]) == multiset(w) - multiset{w[k]}
  {
    assert w == w[..k] + [w[k]] + w[k + 1..];
  }

  /** The first `j` messages, delivered in any order over an all-zero base, produce the picture of
      the last of them on visible bytes. */
  lemma {:induction false} AnyOrder(cfg: Config, sent: seq<Entry>, w: seq<Packet>, j: nat, i: nat)
    requires EntriesOk(cfg, sent) && j <= |sent| && Permutes(w, j) && i < Size(cfg) && Visible(cfg, i)
    ensures |BaseOf(cfg, sent, j)| == Size(cfg) && Acc(cfg, sent, w)[i] == BaseOf(cfg, sent, j)[i]
    decreases j
  {
    hide EntriesOk, Flip, MaskOf, Acc, Visible;
    BaseSize(cfg, sent, j);
    if j == 0 {
      forall k | 0 <= k < |w| ensures w[k].Input? {
        assert w[k] in multiset(w);
      }
      AccOfInputs(cfg, sent, w, i);
    } else {
      assert Video(j - 1) in multiset(w);
      var k :| 0 <= k < |w| && w[k] == Video(j - 1);
      RemoveCounts(w, k);
      AnyOrder(cfg, sent, w[..k] + w[k + 1..], j - 1, i);
      AccWithout(cfg, sent, w, k, i);
      EntryMoves(cfg, sent, j - 1, i);
    }
  }

  // ----- Theorems -----

  /** What the client has on its screen, as far as it has received anything. */
  function ClientBase(cfg: Config, s: System): seq<byte> {
    Bytes.Resize(s.client.prev, Size(cfg))
  }

  function ServerBase(cfg: Config, s: System): seq<byte> {
    Bytes.Resize(s.server.prev, Size(cfg))
  }

  function Received(s: System): seq<Packet>
    requires s.delivered <= |s.net.written|
  {
    s.net.written[..s.delivered]
  }

  /** Everything written but not yet received, and everything still queued. */
  function Flying(s: System): seq<Packet>
    requires s.delivered <= |s.net.written|
  {
    s.net.written[s.delivered..] + s.net.anchor + s.net.frame
  }

  lemma EverythingPermutes(s: System)
    requires Ordered(s.net, |s.sent|, s.server.count) && s.delivered <= |s.net.written|
    ensures Permutes(Received(s) + Flying(s), |s.sent|)
  {
    var q, d := s.net, s.delivered;
    assert q.written == q.written[..d] + q.written[d..];
    forall x: nat ensures multiset(Received(s) + Flying(s))[Video(x)] == if x < |s.sent| then 1 else 0 {
      assert Contents(q)[Video(x)] == if x < |s.sent| then 1 else 0;
      assert Video(x) !in multiset(q.input);
    }
  }

  /** Conservation: on visible bytes the client's base, XORed with the masks of all messages in
      flight, is the server's base - whatever was overtaken, refused or dropped. */
  lemma Conservation(cfg: Config, actions: seq<Action>)
    requires ValidConfig(cfg) && ValidRun(cfg, actions)
    ensures var s := Run(cfg, actions);
            && s.delivered <= |s.net.written|
            && Agree(cfg, Xor(ClientBase(cfg, s), Acc(cfg, s.sent, Flying(s))), ServerBase(cfg, s))
  {
    hide Ordered, EntriesOk, Run, ValidRun, Acc, Visible;
    var s := Run(cfg, actions);
    RunsAreGood(cfg, actions);
    EverythingPermutes(s);
    forall i: nat | i < Size(cfg) && Visible(cfg, i)
      ensures Xor(ClientBase(cfg, s), Acc(cfg, s.sent, Flying(s)))[i] == ServerBase(cfg, s)[i]
    {
      AnyOrder(cfg, s.sent, Received(s) + Flying(s), |s.sent|, i);
      AccConcat(cfg, s.sent, Received(s), Flying(s), i);
      XorAt(ClientBase(cfg, s), Acc(cfg, s.sent, Flying(s)), i);
    }
  }

  /** Whenever what the client has received is a prefix of the encode order - in whatever order it
      came - the client's picture is the picture of that prefix, on visible bytes. */
  lemma PrefixAgrees(cfg: Config, actions: seq<Action>, j: nat)
    requires ValidConfig(cfg) && ValidRun(cfg, actions)
    requires var s := Run(cfg, actions);
             s.delivered <= |s.net.written| && j <= |s.sent| && Permutes(Received(s), j)
    ensures var s := Run(cfg, actions);
            Agree(cfg, ClientBase(cfg, s), BaseOf(cfg, s.sent, j))
  {
    hide Ordered, EntriesOk, Run, ValidRun, Acc, Visible, Permutes;
    var s := Run(cfg, actions);
    RunsAreGood(cfg, actions);
    BaseSize(cfg, s.sent, j);
    forall i: nat | i < Size(cfg) && Visible(cfg, i) ensures ClientBase(cfg, s)[i] == BaseOf(cfg, s.sent, j)[i] {
      AnyOrder(cfg, s.sent, Received(s), j, i);
    }
  }

  /** In particular, once nothing is in flight the two ends show the same picture. */
  lemma QuiescentAgrees(cfg: Config, actions: seq<Action>)
    requires ValidConfig(cfg) && ValidRun(cfg, actions)
    requires var s := Run(cfg, actions);
             s.delivered == |s.net.written| && s.net.anchor == [] && s.net.frame == []
    ensures var s := Run(cfg, actions);
            Agree(cfg, ClientBase(cfg, s), ServerBase(cfg, s))
  {
    hide Ordered, EntriesOk, Run, ValidRun, Acc, Agree;
    var s := Run(cfg, actions);
    RunsAreGood(cfg, actions);
    EverythingPermutes(s);
    assert Received(s) + Flying(s) == Received(s);
    PrefixAgrees(cfg, actions, |s.sent|);
  }

  /** At most two messages older than one the client has received are still missing. */
  lemma FewMissing(cfg: Config, actions: seq<Action>, d: nat)
    requires ValidConfig(cfg) && ValidRun(cfg, actions)
    requires var s := Run(cfg, actions);
             s.delivered <= |s.net.written| && Video(d) in Received(s)
    ensures |set x: nat | x < d && Video(x) !in Received(Run(cfg, actions))| <= FRAME_QUEUE_DEPTH
  {
    hide Ordered, EntriesOk, Run, ValidRun, Acc;
    var s := Run(cfg, actions);
    RunsAreGood(cfg, actions);
    AtMostTwoMissing(s.net, |s.sent|, s.server.count, s.delivered, d);
  }

  /** No run ever panics, and the client can decode every frame message it receives. */
  lemma NoFault(cfg: Config, actions: seq<Action>)
    requires ValidConfig(cfg) && ValidRun(cfg, actions)
    ensures !Run(cfg, actions).fault
  {
    RunsAreGood(cfg, actions);
  }

  /** In any run, whatever was skipped, dropped, refused or scaled before: the regions about to be
      encoded cover every visible byte that differs from the base, and while `needFull` is off the
      base is the frame popped last. */
  lemma EveryChangeIsEncoded(cfg: Config, actions: seq<Action>, batch: seq<Frame>, dropped: bool, i: nat)
    requires ValidConfig(cfg) && ValidRun(cfg, actions) && i < Size(cfg) && Visible(cfg, i)
    requires batch != [] && Allowed(cfg, Run(cfg, actions), Encode(batch, dropped))
    ensures var s := Run(cfg, actions);
            var d := DraftOf(cfg, s.server, batch, dropped);
            && i < |d.picture| && i < |d.base|
            && (d.picture[i] != d.base[i] ==> Delta.Covered(Delta.SpansOf(cfg.stride, d.regions), i))
            && (!s.server.isFirst && !s.server.needFull ==> s.popped == Bytes.Some(s.server.prev))
  {
    hide EntriesOk, Ordered, ClientOk, Run, ValidRun, DraftOf, Allowed, ValidConfig;
    RunsAreGood(cfg, actions);
    RegionsCoverChanges(cfg, Run(cfg, actions), batch, dropped, i);
  }
}
