/** Chunks of different streams may be interleaved; each stream is reassembled on its own. */
module Interleaving {
  import opened Bytes
  import opened Header
  import opened Framing
  import opened ChunkSender

  /** The chunks of one stream, in wire order. */
  function Of(w: seq<Chunk>, id: u16): seq<Chunk> {
    if w == [] then []
    else if w[0].header.streamId == id then [w[0]] + Of(w[1..], id)
    else Of(w[1..], id)
  }

  /** The messages of one stream, in delivery order. */
  function MessagesOf(out: seq<Message>, id: u16): seq<Message> {
    if out == [] then []
    else if out[0].header.streamId == id then [out[0]] + MessagesOf(out[1..], id)
    else MessagesOf(out[1..], id)
  }

  function Only(chunks: ChunkMap, id: u16): ChunkMap {
    if id in chunks then map[id := chunks[id]] else map[]
  }

  lemma {:induction false} MessagesOfConcat(a: seq<Message>, b: seq<Message>, id: u16)
    ensures MessagesOf(a + b, id) == MessagesOf(a, id) + MessagesOf(b, id)
  {
    if a == [] {
      AppendEmpty(b);
      AppendEmpty(MessagesOf(b, id));
    } else {
      assert (a + b)[1..] == a[1..] + b;
      MessagesOfConcat(a[1..], b, id);
    }
  }

  lemma AcceptOne(chunks: ChunkMap, c: Chunk, id: u16)
    ensures var (next, out) := Accept(chunks, c);
            if c.header.streamId == id
            then Accept(Only(chunks, id), c) == (Only(next, id), out) && MessagesOf(out, id) == out
            else Only(next, id) == Only(chunks, id) && MessagesOf(out, id) == []
  {
    FastPathAgrees(chunks, c);
    FastPathAgrees(Only(chunks, id), c);
    var (next, out) := Accept(chunks, c);
    if c.header.streamId == id {
      assert Only(chunks, id) - {id} == map[];
      assert Only(chunks, id)[id := Pending(chunks, id) + c.payload] == map[id := Pending(chunks, id) + c.payload];
    }
    if out != [] {
      assert out[1..] == [];
      AppendEmpty(out);
    }
  }

  /** What a stream delivers depends on that stream's chunks alone. */
  lemma {:induction false} StreamsAreIndependent(chunks: ChunkMap, w: seq<Chunk>, id: u16)
    ensures var (last, out) := Reassemble(chunks, w);
            Reassemble(Only(chunks, id), Of(w, id)) == (Only(last, id), MessagesOf(out, id))
    decreases |w|
  {
    if w != [] {
      var (next, first) := Accept(chunks, w[0]);
      AcceptOne(chunks, w[0], id);
      StreamsAreIndependent(next, w[1..], id);
      var rest := Reassemble(next, w[1..]).1;
      MessagesOfConcat(first, rest, id);
      AppendEmpty(MessagesOf(rest, id));
      if w[0].header.streamId == id {
        AppendTail(w[0], Of(w[1..], id));
      }
    }
  }

  /** A stream is open exactly when its latest chunk lacked LAST_CHUNK. */
  predicate Open(w: seq<Chunk>, id: u16) {
    var mine := Of(w, id);
    mine != [] && !mine[|mine| - 1].header.IsLast()
  }

  lemma {:induction false} OpenStream(chunks: ChunkMap, mine: seq<Chunk>, id: u16)
    requires mine != [] && forall c <- mine :: c.header.streamId == id
    ensures id in Reassemble(chunks, mine).0 <==> !mine[|mine| - 1].header.IsLast()
    decreases |mine|
  {
    assert mine[0] in mine;
    FastPathAgrees(chunks, mine[0]);
    if |mine| > 1 {
      OpenStream(Accept(chunks, mine[0]).0, mine[1..], id);
    }
  }

  lemma {:induction false} OfIsMine(w: seq<Chunk>, id: u16)
    ensures forall c <- Of(w, id) :: c.header.streamId == id
  {
    if w != [] {
      OfIsMine(w[1..], id);
    }
  }

  lemma HeldIsOpen(w: seq<Chunk>, id: u16)
    ensures id in Reassemble(map[], w).0 <==> Open(w, id)
  {
    StreamsAreIndependent(map[], w, id);
    OfIsMine(w, id);
    if Of(w, id) != [] {
      OpenStream(Only(map[], id), Of(w, id), id);
    }
  }

  /** The reassembly map holds exactly the open streams; `in_progress_streams` is their number. */
  lemma InProgressIsOpen(w: seq<Chunk>)
    ensures Reassemble(map[], w).0.Keys == set id: u16 | Open(w, id)
  {
    hide Reassemble, Open;
    forall id: u16 ensures id in Reassemble(map[], w).0 <==> Open(w, id) {
      HeldIsOpen(w, id);
    }
  }

  /** Main interleaving result. The wire carries valid chunks of any number of streams in any
      order and any fragmentation. A stream whose own chunks are those of a list of messages
      delivers exactly that list, in order, and is closed at the end. */
  lemma AnyInterleaving(w: seq<Chunk>, frags: seq<seq<byte>>, id: u16, list: seq<Sent>)
    requires ValidChunks(w) && Concat(frags) == Wire(w)
    requires forall s <- list :: Sendable(s)
    requires Of(w, id) == AllChunks(list)
    ensures var r := PushAll(FreshParser, frags);
            && r.error.None? && r.parser.buf == []
            && MessagesOf(r.out, id) == AllDelivered(list)
            && id !in r.parser.chunks
            && r.parser.chunks.Keys == set k: u16 | Open(w, k)
  {
    WireIsReassembled(w, frags);
    StreamsAreIndependent(map[], w, id);
    AllChunksReassemble(list, map[]);
    InProgressIsOpen(w);
  }
}
