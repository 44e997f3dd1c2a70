/** What a receiver has after reading any part of the bytes of a list of messages: exactly the
    messages whose bytes it has read in full. */
module PartialReads {
  import opened Bytes
  import opened Header
  import opened Framing
  import opened ChunkSender

  /** How many chunks end a message. */
  function Lasts(w: seq<Chunk>): nat {
    if w == [] then 0 else (if w[0].header.IsLast() then 1 else 0) + Lasts(w[1..])
  }

  lemma {:induction false} LastsConcat(a: seq<Chunk>, b: seq<Chunk>)
    ensures Lasts(a + b) == Lasts(a) + Lasts(b)
    decreases |a|
  {
    if a == [] {
      AppendEmpty(b);
    } else {
      assert (a + b)[1..] == a[1..] + b;
      LastsConcat(a[1..], b);
    }
  }

  /** Every last chunk completes one message, and nothing else does. */
  lemma {:induction false} LastsComplete(chunks: ChunkMap, w: seq<Chunk>)
    ensures |Reassemble(chunks, w).1| == Lasts(w)
    decreases |w|
  {
    if w != [] {
      FastPathAgrees(chunks, w[0]);
      LastsComplete(Accept(chunks, w[0]).0, w[1..]);
    }
  }

  lemma EndsInLast(w: seq<Chunk>)
    requires w != [] && w[|w| - 1].header.IsLast()
    ensures Lasts(w) >= 1
  {
    assert w == w[..|w| - 1] + [w[|w| - 1]];
    LastsConcat(w[..|w| - 1], [w[|w| - 1]]);
  }

  /** The chunks of a list end with the last chunk of its last message. */
  lemma ListEndsInLast(list: seq<Sent>)
    requires list != []
    ensures var w := AllChunks(list); w != [] && w[|w| - 1].header.IsLast()
  {
    var front, m := list[..|list| - 1], list[|list| - 1];
    assert list == front + [m];
    AllChunksConcat(front, [m]);
    AllChunksOne(m);
    HeaderIsLastChunks(m.msg, m.chunkSize);
  }

  /** The bytes of the first `j` messages. */
  function WireOf(list: seq<Sent>, j: nat): seq<byte>
    requires j <= |list|
  {
    Wire(AllChunks(list[..j]))
  }

  lemma WireSplits(list: seq<Sent>, j: nat)
    requires j <= |list|
    ensures Wire(AllChunks(list)) == WireOf(list, j) + Wire(AllChunks(list[j..]))
  {
    assert list == list[..j] + list[j..];
    AllChunksConcat(list[..j], list[j..]);
    WireConcat(AllChunks(list[..j]), AllChunks(list[j..]));
  }

  lemma AllSend(list: seq<Sent>, j: nat)
    requires (forall s <- list :: Sendable(s)) && j <= |list|
    ensures forall s <- list[..j] :: Sendable(s)
  {}

  /** The parser after the first `j` messages has nothing left and has emitted those. */
  lemma WholeMessages(list: seq<Sent>, j: nat)
    requires (forall s <- list :: Sendable(s)) && j <= |list|
    ensures ValidChunks(AllChunks(list[..j]))
    ensures Scan(WireOf(list, j)) == (AllChunks(list[..j]), [])
    ensures Push(FreshParser, WireOf(list, j)) == Drained(FreshParser, AllDelivered(list[..j]), None)
  {
    AllSend(list, j);
    AllChunksReassemble(list[..j], map[]);
    ScanWire(AllChunks(list[..j]), []);
    AppendEmpty(WireOf(list, j));
    AppendEmpty(AllChunks(list[..j]));
  }

  /** Reading on past the first `j` messages keeps them. */
  lemma EnoughBytes(list: seq<Sent>, j: nat, more: seq<byte>)
    requires (forall s <- list :: Sendable(s)) && j <= |list|
    ensures |Push(FreshParser, WireOf(list, j) + more).out| >= j
  {
    hide Push;
    WholeMessages(list, j);
    PushTwice(FreshParser, WireOf(list, j), more);
  }

  /** Scanning a part of printed chunks finds some of them from the front, not all. */
  lemma CutScan(all: seq<Chunk>, p: seq<byte>, missing: seq<byte>) returns (v: seq<Chunk>)
    requires ValidChunks(all) && p + missing == Wire(all) && missing != []
    ensures all == Scan(p).0 + v && v != []
  {
    hide Wire, Scan, FrontOf, ValidChunks;
    ScanWire(all, []);
    AppendEmpty(Wire(all));
    assert Scan(p + missing) == (all, []) by { ScanOfNothing(); AppendEmpty(all); }
    WireScan(p);
    var (w, rest) := Scan(p);
    if FrontOf(rest).Invalid? {
      ScanExtendedInvalid(p, missing);
      assert false;
    }
    ScanExtended(p, missing);
    v := Scan(rest + missing).0;
    if v == [] {
      AppendEmpty(w);
      assert false;
    }
  }

  lemma ScanOfNothing()
    ensures Scan([]) == ([], [])
  {}

  /** As long as a byte of message `j - 1` is missing, it is not emitted. */
  lemma MissingBytes(list: seq<Sent>, j: nat, p: seq<byte>, missing: seq<byte>)
    requires (forall s <- list :: Sendable(s)) && j <= |list|
    requires p + missing == WireOf(list, j) && missing != []
    ensures |Push(FreshParser, p).out| < j
  {
    hide Wire, AllChunks, AllDelivered, Scan, Reassemble, Lasts, ValidChunks;
    var all := AllChunks(list[..j]);
    WholeMessages(list, j);
    AppendEmpty(p);
    var v := CutScan(all, p, missing);
    assert j > 0 by {
      if j == 0 { NoChunks(list[..j]); }
    }
    ListEndsInLast(list[..j]);
    assert v[|v| - 1] == all[|all| - 1];
    EndsInLast(v);
    LastsConcat(Scan(p).0, v);
    LastsComplete(map[], Scan(p).0);
    LastsComplete(map[], all);
    AllSend(list, j);
    AllChunksReassemble(list[..j], map[]);
  }

  lemma NoChunks(list: seq<Sent>)
    ensures list == [] ==> AllChunks(list) == []
  {}

  /** A part of what an error-free parser would take parses without error too, and yields the
      first messages. */
  lemma PushPart(frags: seq<seq<byte>>, rest: seq<byte>, msgs: seq<Message>)
    requires PushAll(FreshParser, frags + [rest]) == Drained(FreshParser, msgs, None)
    ensures PushAll(FreshParser, frags).error == None && PushAll(FreshParser, frags).out <= msgs
    ensures rest == [] ==> PushAll(FreshParser, frags) == Drained(FreshParser, msgs, None)
  {
    var bytes := Concat(frags);
    ConcatSnoc(frags, rest);
    FragmentationIndependence(FreshParser, frags + [rest]);
    FragmentationIndependence(FreshParser, frags);
    PushTwice(FreshParser, bytes, rest);
    AppendEmpty(bytes);
  }

  /** Read any part of the wire form of a message list, cut in any way: the parser reports no error,
      emits the first messages whole and in order, and has emitted the first `j` exactly when it has
      read all of their bytes. */
  lemma PartialRead(list: seq<Sent>, frags: seq<seq<byte>>, rest: seq<byte>)
    requires forall s <- list :: Sendable(s)
    requires Concat(frags) + rest == Wire(AllChunks(list))
    ensures var r := PushAll(FreshParser, frags);
            && r.error == None && r.out <= AllDelivered(list)
            && (forall j :: 0 <= j <= |list| ==> (j <= |r.out| <==> |WireOf(list, j)| <= |Concat(frags)|))
            && (rest == [] ==> r == Drained(FreshParser, AllDelivered(list), None))
  {
    hide PushAll, Push, AllDelivered;
    ConcatSnoc(frags, rest);
    RoundTrip(list, frags + [rest]);
    PushPart(frags, rest, AllDelivered(list));
    FragmentationIndependence(FreshParser, frags);
    var p, r := Concat(frags), PushAll(FreshParser, frags);
    forall j | 0 <= j <= |list| ensures j <= |r.out| <==> |WireOf(list, j)| <= |p| {
      WireSplits(list, j);
      CompareCuts(p, rest, WireOf(list, j), Wire(AllChunks(list[j..])));
      if |WireOf(list, j)| <= |p| {
        EnoughBytes(list, j, p[|WireOf(list, j)|..]);
      } else {
        MissingBytes(list, j, p, WireOf(list, j)[|p|..]);
      }
    }
  }

  lemma CompareCuts(a: seq<byte>, b: seq<byte>, c: seq<byte>, d: seq<byte>)
    requires a + b == c + d
    ensures |c| <= |a| ==> a == c + a[|c|..]
    ensures |c| > |a| ==> c == a + c[|a|..]
  {
    if |c| <= |a| {
      assert c == (c + d)[..|c|] == (a + b)[..|c|] == a[..|c|];
    } else {
      assert a == (a + b)[..|a|] == (c + d)[..|a|] == c[..|a|];
    }
  }
}
