/** In which order the writer's three queues let frame messages through.

    Accepted frame messages are numbered 0, 1, 2, ... in encode order. The anchors among them
    wait in their own queue and overtake regular frames; this module bounds by how much. */
module DeliveryOrder {
  import opened TransportQueues
  import opened ChunkSender
  import Server

  datatype Packet = Video(id: nat) | Input(sent: Sent)

  /** The frame messages of a stretch of the pipe. */
  function Videos(w: seq<Packet>): seq<Packet> {
    if w == [] then []
    else
      var before := Videos(w[..|w| - 1]);
      if w[|w| - 1].Video? then before + [w[|w| - 1]] else before
  }

  predicate AllVideo(s: seq<Packet>) {
    forall j :: 0 <= j < |s| ==> s[j].Video?
  }

  predicate AllInput(s: seq<Packet>) {
    forall j :: 0 <= j < |s| ==> s[j].Input?
  }

  predicate Increasing(s: seq<Packet>)
    requires AllVideo(s)
  {
    forall j, k :: 0 <= j < k < |s| ==> s[j].id < s[k].id
  }

  /** The first `n` frame messages are each written or queued, exactly once, and no other is. */
  ghost predicate Partitioned(q: Queues<Packet>, n: nat) {
    forall x: nat :: Contents(q)[Video(x)] == if x < n then 1 else 0
  }

  /** Every frame message is on the pipe at most two places before its turn in encode order. */
  predicate Ahead(w: seq<Packet>) {
    forall p :: 0 <= p < |w| && w[p].Video? ==> w[p].id <= |Videos(w[..p])| + FRAME_QUEUE_DEPTH
  }

  /** While the writer is about to look at the frame queue, it has found the anchor queue empty.
      An anchor that has come in since is followed in encode order by nothing but the head of the
      frame queue, if that is not older. */
  predicate AnchorSlippedIn(q: Queues<Packet>, n: nat, count: nat)
    requires AllVideo(q.anchor) && AllVideo(q.frame)
  {
    q.turn == AtFrame && q.anchor != [] && !q.closed ==>
      if q.frame == [] then |q.anchor| == 1 && n == q.anchor[0].id + 1 && count % Server.ANCHOR_INTERVAL == 1
      else q.frame[0].id < q.anchor[0].id || q.frame[0].id == q.anchor[0].id + 1
  }

  /** `n` messages accepted out of `count` frames encoded. */
  ghost predicate Ordered(q: Queues<Packet>, n: nat, count: nat) {
    && AllInput(q.input) && AllVideo(q.anchor) && AllVideo(q.frame)
    && Increasing(q.anchor) && Increasing(q.frame) && |q.frame| <= FRAME_QUEUE_DEPTH
    && Partitioned(q, n) && AnchorSlippedIn(q, n, count) && Ahead(q.written)
  }

  lemma InitiallyOrdered()
    ensures Ordered(EmptyQueues(), 0, 0)
  {}

  // ----- Sending -----

  lemma QueuedBelow(q: Queues<Packet>, n: nat, s: seq<Packet>)
    requires Partitioned(q, n) && AllVideo(s) && (s == q.anchor || s == q.frame)
    ensures forall j :: 0 <= j < |s| ==> s[j].id < n
  {
    forall j | 0 <= j < |s| ensures s[j].id < n {
      assert s[j] in multiset(s);
      assert Contents(q)[Video(s[j].id)] > 0;
    }
  }

  lemma OfferContents(q: Queues<Packet>, m: Packet)
    ensures !q.closed ==> Contents(OfferAnchor(q, m)) == Contents(q) + multiset{m}
    ensures !q.closed ==> Contents(OfferInput(q, m)) == Contents(q) + multiset{m}
    ensures AcceptsFrame(q) ==> Contents(OfferFrame(q, m)) == Contents(q) + multiset{m}
  {}

  lemma OfferPartitions(q: Queues<Packet>, r: Queues<Packet>, n: nat)
    requires Partitioned(q, n) && Contents(r) == Contents(q) + multiset{Video(n)}
    ensures Partitioned(r, n + 1)
  {}

  lemma AnchorOrdered(q: Queues<Packet>, n: nat, count: nat)
    requires Ordered(q, n, count) && !q.closed && count % Server.ANCHOR_INTERVAL == 0
    ensures Ordered(OfferAnchor(q, Video(n)), n + 1, count + 1)
  {
    hide Ahead, Contents;
    QueuedBelow(q, n, q.anchor);
    QueuedBelow(q, n, q.frame);
    OfferContents(q, Video(n));
    OfferPartitions(q, OfferAnchor(q, Video(n)), n);
  }

  lemma FrameOrdered(q: Queues<Packet>, n: nat, count: nat)
    requires Ordered(q, n, count) && AcceptsFrame(q)
    ensures Ordered(OfferFrame(q, Video(n)), n + 1, count + 1)
  {
    hide Ahead, Contents;
    QueuedBelow(q, n, q.frame);
    OfferContents(q, Video(n));
    OfferPartitions(q, OfferFrame(q, Video(n)), n);
  }

  /** A regular frame is refused only while the frame queue is full, an anchor only after the
      writer has failed. */
  lemma RefusalOrdered(q: Queues<Packet>, n: nat, count: nat)
    requires Ordered(q, n, count) && (q.closed || |q.frame| == FRAME_QUEUE_DEPTH)
    ensures Ordered(q, n, count + 1)
  {}

  lemma InputOrdered(q: Queues<Packet>, n: nat, count: nat, sent: Sent)
    requires Ordered(q, n, count)
    ensures Ordered(OfferInput(q, Input(sent)), n, count)
  {
    hide Ahead, Contents;
    OfferContents(q, Input(sent));
  }

  lemma CloseOrdered(q: Queues<Packet>, n: nat, count: nat)
    requires Ordered(q, n, count)
    ensures Ordered(Close(q), n, count)
  {
    hide Ahead;
    assert Contents(Close(q)) == Contents(q);
  }

  // ----- Writing -----

  function UpTo(n: nat): multiset<Packet> {
    if n == 0 then multiset{} else UpTo(n - 1) + multiset{Video(n - 1)}
  }

  lemma {:induction false} UpToCounts(n: nat)
    ensures |UpTo(n)| == n
    ensures forall x: nat :: UpTo(n)[Video(x)] == if x < n then 1 else 0
    ensures forall s :: UpTo(n)[Input(s)] == 0
  {
    if n > 0 {
      UpToCounts(n - 1);
    }
  }

  lemma {:induction false} VideosCount(w: seq<Packet>)
    ensures forall x: nat :: multiset(Videos(w))[Video(x)] == multiset(w)[Video(x)]
    ensures AllVideo(Videos(w))
  {
    if w != [] {
      VideosCount(w[..|w| - 1]);
      assert w == w[..|w| - 1] + [w[|w| - 1]];
    }
  }

  lemma SubsetSize(a: multiset<Packet>, b: multiset<Packet>)
    requires a <= b
    ensures |a| <= |b|
  {
    assert b == a + (b - a);
  }

  /** If all messages older than `x` are written or among `waiting`, then `x` is at most that
      many places early. */
  lemma PlacesEarly(w: seq<Packet>, waiting: seq<Packet>, x: nat)
    requires forall y: nat :: y < x ==> Video(y) in multiset(w) || Video(y) in multiset(waiting)
    ensures x <= |Videos(w)| + |waiting|
  {
    UpToCounts(x);
    VideosCount(w);
    var both := multiset(Videos(w)) + multiset(waiting);
    forall m: Packet ensures UpTo(x)[m] <= both[m] {
      if m.Video? && m.id < x {
        assert UpTo(x)[Video(m.id)] == 1;
        assert multiset(Videos(w))[Video(m.id)] == multiset(w)[Video(m.id)];
      }
    }
    SubsetSize(UpTo(x), both);
  }

  lemma AheadSnoc(w: seq<Packet>, m: Packet)
    requires Ahead(w) && (m.Video? ==> m.id <= |Videos(w)| + FRAME_QUEUE_DEPTH)
    ensures Ahead(w + [m])
  {
    var r := w + [m];
    forall p | 0 <= p < |r| && r[p].Video? ensures r[p].id <= |Videos(r[..p])| + FRAME_QUEUE_DEPTH {
      assert r[..p] == if p < |w| then w[..p] else w;
    }
  }

  /** An accepted message that is not written waits in the anchor queue or in the frame queue. */
  lemma WrittenOrWaiting(q: Queues<Packet>, n: nat, y: nat)
    requires Partitioned(q, n) && AllInput(q.input) && y < n
    ensures Video(y) in multiset(q.written) || Video(y) in multiset(q.anchor) || Video(y) in multiset(q.frame)
  {
    assert Contents(q)[Video(y)] == 1;
    assert Video(y) !in multiset(q.input);
  }

  lemma NotBehindHead(s: seq<Packet>, y: nat)
    requires AllVideo(s) && Increasing(s) && s != [] && y < s[0].id
    ensures Video(y) !in multiset(s)
  {}

  /** The oldest anchor can be early by the frames in the frame queue only. */
  lemma AnchorEarly(q: Queues<Packet>, n: nat, count: nat)
    requires Ordered(q, n, count) && q.anchor != []
    ensures q.anchor[0].id <= |Videos(q.written)| + FRAME_QUEUE_DEPTH
  {
    var x := q.anchor[0].id;
    QueuedBelow(q, n, q.anchor);
    forall y: nat | y < x ensures Video(y) in multiset(q.written) || Video(y) in multiset(q.frame) {
      WrittenOrWaiting(q, n, y);
      NotBehindHead(q.anchor, y);
    }
    PlacesEarly(q.written, q.frame, x);
  }

  /** The head of the frame queue can be early by one anchor only. */
  lemma FrameEarly(q: Queues<Packet>, n: nat, count: nat)
    requires Ordered(q, n, count) && q.turn == AtFrame && q.frame != [] && !q.closed
    ensures q.frame[0].id <= |Videos(q.written)| + 1
  {
    var x := q.frame[0].id;
    var slipped := if q.anchor == [] then [] else [q.anchor[0]];
    QueuedBelow(q, n, q.frame);
    forall y: nat | y < x ensures Video(y) in multiset(q.written) || Video(y) in multiset(slipped) {
      WrittenOrWaiting(q, n, y);
      NotBehindHead(q.frame, y);
      if q.anchor != [] && y < q.anchor[0].id {
        NotBehindHead(q.anchor, y);
      }
    }
    PlacesEarly(q.written, slipped, x);
  }

  lemma TailOrdered(s: seq<Packet>)
    requires s != [] && AllVideo(s) && Increasing(s)
    ensures AllVideo(s[1..]) && Increasing(s[1..])
  {}

  /** Whatever the writer finds, the order of the pipe stays within the bound. */
  lemma PollOrdered(q: Queues<Packet>, n: nat, count: nat)
    requires Ordered(q, n, count)
    ensures Ordered(Poll(q), n, count)
  {
    hide Ahead, Contents;
    var r := Poll(q);
    PollConserves(q);
    assert Partitioned(r, n);
    if q.anchor != [] { TailOrdered(q.anchor); }
    if q.frame != [] { TailOrdered(q.frame); }
    if r.written != q.written {
      match q.turn
      case AtInput => AheadSnoc(q.written, q.input[0]);
      case AtAnchor => AnchorEarly(q, n, count); AheadSnoc(q.written, q.anchor[0]);
      case AtFrame => FrameEarly(q, n, count); AheadSnoc(q.written, q.frame[0]);
    }
  }

  // ----- How much can be missing -----

  lemma {:induction false} VideosGrow(w: seq<Packet>, p: nat)
    requires p < |w|
    ensures |Videos(w[..p])| + (if w[p].Video? then 1 else 0) <= |Videos(w)|
    decreases |w|
  {
    if p < |w| - 1 {
      var front := w[..|w| - 1];
      assert front[..p] == w[..p];
      VideosGrow(front, p);
    }
  }

  lemma {:induction false} Latest(w: seq<Packet>) returns (p: nat)
    requires exists j :: 0 <= j < |w| && w[j].Video?
    ensures p < |w| && w[p].Video? && forall j :: 0 <= j < |w| && w[j].Video? ==> w[j].id <= w[p].id
    decreases |w|
  {
    var front := w[..|w| - 1];
    if exists j :: 0 <= j < |front| && front[j].Video? {
      p := Latest(front);
      if w[|w| - 1].Video? && w[p].id < w[|w| - 1].id {
        p := |w| - 1;
      }
    } else {
      p := |w| - 1;
    }
  }

  lemma {:induction false} Embed(ids: set<nat>, a: multiset<Packet>)
    requires forall x <- ids :: Video(x) in a
    ensures |ids| <= |a|
  {
    if ids != {} {
      var x :| x in ids;
      Embed(ids - {x}, a - multiset{Video(x)});
    }
  }

  /** A stretch of the pipe in which no frame message occurs twice and none is newer than `top`
      lacks exactly `top + 1 - |Videos(w)|` of them. */
  lemma LackingUpTo(w: seq<Packet>, top: nat, d: nat)
    requires d <= top + 1
    requires forall x: nat :: multiset(w)[Video(x)] <= if x <= top then 1 else 0
    ensures |set x: nat | x < d && Video(x) !in w| <= top + 1 - |Videos(w)|
  {
    UpToCounts(top + 1);
    VideosCount(w);
    var have, all := multiset(Videos(w)), UpTo(top + 1);
    forall m: Packet ensures have[m] <= all[m] {
      if m.Video? {
        assert have[Video(m.id)] == multiset(w)[Video(m.id)];
      } else {
        assert m !in Videos(w);
      }
    }
    assert all == have + (all - have);
    var lacking := set x: nat | x < d && Video(x) !in w;
    forall x <- lacking ensures Video(x) in all - have {
      assert have[Video(x)] == multiset(w)[Video(x)] == 0;
    }
    Embed(lacking, all - have);
  }

  lemma WrittenOnce(q: Queues<Packet>, n: nat, k: nat, x: nat)
    requires Partitioned(q, n) && k <= |q.written|
    ensures multiset(q.written[..k])[Video(x)] <= if x < n then 1 else 0
  {
    assert q.written == q.written[..k] + q.written[k..];
    assert Contents(q)[Video(x)] <= 1;
  }

  /** At any moment, and however far the receiver has read, at most two messages older than one
      it has received are still to come. */
  lemma AtMostTwoMissing(q: Queues<Packet>, n: nat, count: nat, k: nat, d: nat)
    requires Ordered(q, n, count) && k <= |q.written| && Video(d) in q.written[..k]
    ensures |set x: nat | x < d && Video(x) !in q.written[..k]| <= FRAME_QUEUE_DEPTH
  {
    hide Contents, Partitioned, Videos;
    var w := q.written[..k];
    var at :| 0 <= at < |w| && w[at] == Video(d);
    var p := Latest(w);
    assert w[..p] == q.written[..p] && w[p] == q.written[p];
    VideosGrow(w, p);
    forall x: nat ensures multiset(w)[Video(x)] <= if x <= w[p].id then 1 else 0 {
      WrittenOnce(q, n, k, x);
    }
    LackingUpTo(w, w[p].id, d);
  }
}
