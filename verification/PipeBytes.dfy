/** The packets of the step system as messages and as bytes. */
module Pipe {
  import opened Bytes
  import opened Framing
  import opened ChunkSender
  import opened DeliveryOrder
  import opened Server
  import opened Session

  function SentOf(sent: seq<Entry>, p: Packet): Sent
    requires p.Video? ==> p.id < |sent|
  {
    match p
    case Video(id) => Sent(sent[id].msg, CHUNK_SIZE)
    case Input(input) => input
  }

  predicate Known(sent: seq<Entry>, w: seq<Packet>) {
    forall k :: 0 <= k < |w| && w[k].Video? ==> w[k].id < |sent|
  }

  /** The packets as messages with the chunk size each is cut with. */
  function SentList(sent: seq<Entry>, w: seq<Packet>): (r: seq<Sent>)
    requires Known(sent, w)
    ensures |r| == |w| && forall k :: 0 <= k < |w| ==> r[k] == SentOf(sent, w[k])
  {
    seq(|w|, k requires 0 <= k < |w| => SentOf(sent, w[k]))
  }

  /** The bytes in the pipe. */
  function PipeBytes(sent: seq<Entry>, w: seq<Packet>): seq<byte>
    requires Known(sent, w)
  {
    Wire(AllChunks(SentList(sent, w)))
  }

  function Arrivals(sent: seq<Entry>, w: seq<Packet>): (r: seq<Message>)
    requires Known(sent, w)
    ensures |r| == |w| && forall k :: 0 <= k < |w| ==> r[k] == Arrival(sent, w[k])
  {
    seq(|w|, k requires 0 <= k < |w| => Arrival(sent, w[k]))
  }
}
