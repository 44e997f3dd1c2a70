# RemoteWay in Dafny

RemoteWay streams a Wayland desktop over SSH. The server captures frames, XORs each against the
frame it last managed to send, compresses the damaged rectangles, cuts the payload into chunks and
queues it; a writer drains three queues by priority into a pipe; the client reassembles the chunks,
decompresses, and XORs the delta into its own copy of the frame. This project models that path,
from the capture ring to the client's frame, and proves that the two copies stay in step. Around it
stand the other stateful pieces of the repository: the lock-free buffer pool, the in-place
transforms of captured frames, the latency histogram and the refresh-interval estimate.

`dafny verify dfyconfig.toml` checks the whole project.

## How it is laid out

| file | what it holds |
|---|---|
| `Session.dfy`, `Convergence.dfy`, `InFlight.dfy`, `Settling.dfy`, `Captures.dfy` | the session as a step system, its invariant, the theorems about the two bases, eventual agreement, and which captured frame each message carries |
| `Server.dfy`, `Client.dfy`, `TransportQueues.dfy`, `DeliveryOrder.dfy`, `Overtaking.dfy`, `Priority.dfy` | the loops of both ends, the three queues with their writer, how far anchors overtake frames, a run in which they go that far, and what no message overtakes |
| `Refinement.dfy`, `PipeBytes.dfy`, `PartialReads.dfy`, `EndToEnd.dfy` | the loops on bytes run against the step system; what a part of the bytes parses to; from the bytes handed to the pipe to pictures |
| `Header.dfy`, `Framing.dfy`, `StreamParser.dfy`, `ChunkSender.dfy`, `ChunkSurvival.dfy`, `Interleaving.dfy` | chunk framing: printer, incremental parser, round trips |
| `Delta.dfy`, `DeltaCodec.dfy`, `Stripes.dfy`, `FramePayload.dfy`, `Pipeline.dfy`, `BoxFilter.dfy`, `Downscaling.dfy` | the codec: XOR deltas, stripes, payload layout, compression, box filter |
| `BufferPool.dfy`, `Transform.dfy`, `Latency.dfy`, `Presentation.dfy` | pool, flips and mirrors, latency ring, refresh interval |
| `Bytes.dfy`, `Arith.dfy` | bytes, XOR, little-endian integers, non-linear arithmetic |

Each loop of the source is a method proved against a function, and the theorems are about those
functions. `Session.System` is the product of both ends: an action is one loop iteration of the
server, an input message, one look of the writer at one queue (senders may run between two looks),
one delivery, or the failure of the writer. A run is any list of actions. Frame messages carry the number of their
acceptance, which is not on the wire. `Refinement.ByteRun` runs the same actions on the loops' own
state, the server's variables and queues of byte strings: `Refinement.RunObjects` takes the loop and
transport objects themselves there, and `Refinement.RunsMirror` shows that in every run bytes and
packets go together. The theorems of `EndToEnd` are about those bytes and the client's objects.

What a message must be is told twice: by the functions the loops compute, and, independently of them,
from the list of actions (`Captures`) and from the bytes (`Header.HeaderLayout`,
`FramePayload.SerializeLayout`, `ChunkSender.ChunkByIndex`, `Delta.EncodeOneAt`).

Two frames are compared on visible bytes only: row padding is never transmitted.

The flip and mirror helpers of the capture are specified for any stride. The capture calls them with
four bytes a pixel, where they undo the compositor's transform (`Transform.CapturedIsUpright`); what
they would do to padded rows concerns the helpers alone (`Transform.UndoUndoes`).

## What a run is trusted with

- `Session.Allowed`: a frame popped alone from the ring, with no drop signalled, carries damage that
  covers every visible difference from the frame popped before it. Damage rectangles lie inside the
  frame. Nothing is assumed of a frame that was popped with others or after a drop.
- `Server.ValidConfig`: one frame size for the session, below 4 GiB; a codec whose decompressor
  inverts its compressor; compressed regions below 4 GiB; a downscaling filter, if any, that returns
  pictures of the target size (the box filter does: `Downscaling.BoxSession`).

## Where the code and its comments differ

- An anchor does not reset the client's base to zero (client pipeline.rs:172): `resize` keeps the
  bytes of a base that already has the right length, on both ends. An anchor is a full-area delta
  like any other, and resynchronises exactly the clients that did not need it
  (`Client.AnchorResyncsExactly`, with an input in `Server.AnchorLeavesApart`).
- The stripes do not leave the remainder to the last one (server pipeline.rs:35-36): the first
  `height % n` stripes are one row taller (`Stripes.StripesShape`).
- The layout of the buffer pool is not always non-empty (buffer_pool.rs:35): a frame size of zero is
  accepted (`BufferPool.AllocationEmpty`).
- The box filter is an average only while 255 times the pixels of a block fit its 32-bit
  accumulators; otherwise a build without overflow checks darkens a white frame
  (`BoxFilter.ImageExactly`, `BoxFilter.LargeWhiteDarkens`). Nothing checks the scale for that.
- A histogram made with capacity zero panics at its first record when the vector really has none
  (`Latency.LatencyHistogram.Record`).
- The latency average divides by a count cut to 32 bits (`Latency.AverageIsMean`,
  `Latency.LatencyHistogram.GetStats`).
- LAST_CHUNK in the extra flags breaks a message of several chunks into several messages, and the
  splitter does not refuse chunk sizes above the parser's limit (`ChunkSurvival.SurvivesExactly`).

## Model

| member | source | states |
|---|---|---|
| `InFlight.Conservation` | crates/remoteway-server/src/pipeline.rs:413-511 | in every reachable state, on visible bytes, the client's base XOR the masks of all messages in flight (pipe, anchor queue, frame queue) is the server's base, whatever was overtaken, refused or dropped |
| `InFlight.PrefixAgrees` | crates/remoteway-client/src/pipeline.rs:169-214 | whenever the received messages are exactly the first j accepted ones, in any arrival order, the client's picture is the picture of message j - 1 on visible bytes |
| `InFlight.QuiescentAgrees` | crates/remoteway-client/src/pipeline.rs:211-214 | with nothing queued and everything delivered, both ends hold the same visible bytes |
| `InFlight.FewMissing` | crates/remoteway-transport/src/ssh_transport.rs:9-13 | in every run, at most FRAME_QUEUE_DEPTH = 2 messages older than a received one are still missing |
| `InFlight.EveryChangeIsEncoded` | crates/remoteway-server/src/pipeline.rs:340-511 | over any run, the regions about to be encoded cover every visible byte that differs from the base; while `need_full_damage` is off the base is the frame popped last |
| `InFlight.NoFault` | crates/remoteway-server/src/pipeline.rs:445-456 | no run with honest damage makes the encoder slice out of bounds or the client fail to decode a frame message |
| `InFlight.AnyOrder` | crates/remoteway-compress/src/delta.rs:134-156 | the first j messages applied in any order to an all-zero base give the picture of the last of them; order of delivery does not matter |
| `InFlight.AccWithout` | crates/remoteway-compress/src/delta.rs:134-156 | removing one message from a received stretch removes exactly its mask |
| `Settling.MovesGetOn` | crates/remoteway-transport/src/ssh_transport.rs:171-197 | any list of queue looks and deliveries continues any run in which the writer lives and leaves the server alone; every look counts until the queues are empty, and every delivery until the client has received all that was written when the list began |
| `Settling.EventuallyAgrees` | crates/remoteway-transport/src/ssh_transport.rs:171-197 | stop capturing at any point of any run: every schedule with at least three looks per queued message, followed by one with at least as many deliveries as packets not yet received, with any further looks and deliveries mixed in, leaves nothing in flight, the server untouched and the client with the server's picture |
| `Convergence.RunsAreGood` | crates/remoteway-server/src/pipeline.rs:340-519 | the invariant of the whole system holds after every run: server base known, queues ordered, client base equal to the effect of what it received, no fault |
| `Convergence.StepKeeps` | crates/remoteway-server/src/pipeline.rs:340-519 | each step (encode and send, input, queue look, delivery, writer failure) keeps that invariant |
| `Convergence.VideoArrives` | crates/remoteway-client/src/pipeline.rs:149-214 | every frame message of the server parses, decodes and is shown by the client, and XORs its mask into the base |
| `Convergence.AccStays` | crates/remoteway-server/src/pipeline.rs:487-501 | messages accepted later do not change the effect of earlier ones |
| `Session.RegionsCoverChanges` | crates/remoteway-server/src/pipeline.rs:413-433 | in one iteration the chosen regions (stripes or damage) cover every visible difference between picture and base, given honest damage at the ring |
| `Session.CoverageIsExact` | crates/remoteway-server/src/pipeline.rs:417-456 | a message carries its picture to a client in step with the server if and only if its regions cover every visible byte that changed |
| `Session.NewEntryOk` | crates/remoteway-server/src/pipeline.rs:441-456 | the emitted payload turns the server's base into the new picture on visible bytes |
| `Session.NeverPanics` | crates/remoteway-server/src/pipeline.rs:445-453 | the compressor is only ever called with frames of equal length and regions inside them |
| `Session.EncodeKeepsServer` | crates/remoteway-server/src/pipeline.rs:487-511 | base advanced only on acceptance, `need_full_damage` raised on refusal: the server's part of the invariant survives an iteration |
| `Captures.MessagesAreCaptures` | crates/remoteway-server/src/pipeline.rs:340-511 | in every run, told from the list of actions alone: the frame popped last is the newest of the last batch, scaled if the session scales; the accepted messages are one by one the captures that found room, each with its frame's picture and timestamp on stream 1, compressed, an anchor at every 300th capture and a frame update otherwise, over the damage or over stripes as the history demands |
| `Captures.CaptureCarried` | crates/remoteway-server/src/pipeline.rs:357-468 | one capture: the newest frame of the batch, the message type, the stream, the flag, the timestamp, the announced dimensions and the regions |
| `Captures.RegionsOf` | crates/remoteway-server/src/pipeline.rs:413-433 | damage is used exactly if the frame was popped alone, nothing was dropped, the capture before it was accepted, it is no anchor, nothing is scaled and there is damage; otherwise the whole frame is striped |
| `Captures.AnchorsWaitApart` | crates/remoteway-server/src/pipeline.rs:470-485 | of the messages waiting in the anchor and frame queues, exactly those of every 300th capture wait in the anchor queue |
| `Captures.DeliveredHeader` | crates/remoteway-server/src/pipeline.rs:457-468 | the receiver reports stream 1, type byte 1 for every 300th capture and 0 otherwise, flags 3, the capture's timestamp, and as length what is left of the payload after chunks of 65536 bytes |
| `Captures.BaseIsCapture` | crates/remoteway-server/src/pipeline.rs:487-501 | the server's base is the picture of the last accepted capture |
| `Captures.ClientShowsCapture` | crates/remoteway-client/src/pipeline.rs:169-214 | stop capturing at any point of any run, then look and deliver enough: the client shows the picture of the last accepted capture, which is the newest frame ever popped if that was accepted |
| `Captures.AllBytesShowCapture` | crates/remoteway-transport/src/ssh_transport.rs:144-169 | a fresh client that has read all bytes of the drained loops, in any fragmentation, shows the picture of the last accepted capture |
| `Server.CompressSendLoop.Drain` | crates/remoteway-server/src/pipeline.rs:357-374 | the newest frame of the ring is taken, and a skip or a drop flag raises `need_full_damage` |
| `Server.CompressSendLoop.Prepare` | crates/remoteway-server/src/pipeline.rs:357-443 | up to compression: picture, anchor or not, stripes or damage, and the base resized for an anchor, are the specified draft |
| `Server.CompressSendLoop.Iterate` | crates/remoteway-server/src/pipeline.rs:357-511 | one loop iteration: the whole new loop state and the exact bytes and queue the message went to |
| `Server.CompressSendLoop.EncodeMessage` | crates/remoteway-server/src/pipeline.rs:445-468 | compress, serialize and split produce the wire bytes of the specified message |
| `Server.CompressSendLoop.constructor` | crates/remoteway-server/src/pipeline.rs:330-333 | the loop starts without base, at count zero, with the first frame pending |
| `Server.PayloadParses` | crates/remoteway-server/src/pipeline.rs:455-456 | what the server serializes, the client parses back: dimensions, rectangles, sizes, offsets, data |
| `Server.PayloadDecodable` | crates/remoteway-server/src/pipeline.rs:445-456 | every emitted payload decodes over any base of the session's size, to the decoded delta |
| `Server.PayloadFlips` | crates/remoteway-server/src/pipeline.rs:441-456 | the bits a payload flips are picture XOR base inside its regions and none outside |
| `Server.PlainSession` | crates/remoteway-server/src/pipeline.rs:321-338 | every frame size below 4 GiB is a valid session for the codec that copies |
| `Downscaling.BoxSession` | crates/remoteway-server/src/pipeline.rs:376-411 | a session that downscales with the box filter is a valid session |
| `Downscaling.BoxScaleShrinks` | crates/remoteway-server/src/pipeline.rs:376-411 | what the session's box filter makes of a captured frame, byte by byte |
| `Client.ReceiveLoop.OnFrame` | crates/remoteway-client/src/pipeline.rs:161-214 | one frame message: resize of the base, decode, new base; parse and codec errors skip the message, a rectangle that reaches outside the base crashes, one of no width or height never does, an anchor keeps existing bytes |
| `Client.ReceiveLoop.OnMessage` | crates/remoteway-client/src/pipeline.rs:148-214 | dispatch on the message type; Resize drops `has_previous`, other types leave the base alone |
| `Client.ReceiveLoop.Loop` | crates/remoteway-client/src/pipeline.rs:138-214 | the loop over everything that arrives computes the specified state and stops at a crash |
| `Client.ReceiveLoop.constructor` | crates/remoteway-client/src/pipeline.rs:124-125 | the loop starts without a base |
| `Client.FrameFlipsMask` | crates/remoteway-client/src/pipeline.rs:169-214 | anchor or not, a decodable payload XORs a mask fixed by the payload alone into the base and is shown |
| `Client.ReceiveByType` | crates/remoteway-client/src/pipeline.rs:148-417 | type byte 1 is an anchor, 0 a frame, 6 a resize that drops `has_previous` if it is at least 12 bytes long, and nothing else touches the state |
| `Client.FrameChanges` | crates/remoteway-client/src/pipeline.rs:161-214 | for any payload at all: the size of the base afterwards, that no byte outside the rectangles changes and none unless the frame is shown, and when `has_previous` rises |
| `Client.FrameOutcome` | crates/remoteway-client/src/pipeline.rs:176-214 | exactly when a parsed frame message is skipped and when it crashes the client |
| `Client.AnchorResyncsExactly` | crates/remoteway-client/src/pipeline.rs:172-174 | two clients show the same picture after an anchor if and only if their bases agreed before it: an anchor does not erase a diverged base |
| `Server.AnchorLeavesApart` | crates/remoteway-client/src/pipeline.rs:172-174 | an input: the first anchor of a session of one pixel shows its picture on a fresh client and another one on a client whose base was off by one bit |
| `DeliveryOrder.AtMostTwoMissing` | crates/remoteway-transport/src/ssh_transport.rs:171-195 | for every prefix of the pipe and every message in it, at most two older accepted messages are not in the prefix |
| `Overtaking.BoundIsReached` | crates/remoteway-transport/src/ssh_transport.rs:9-13 | the bound is tight in every session: some run receives the anchor at count 300 while exactly FRAME_QUEUE_DEPTH older messages are missing |
| `DeliveryOrder.PollOrdered` | crates/remoteway-transport/src/ssh_transport.rs:180-186 | one non-atomic look of the biased writer keeps the queue order and the bound |
| `DeliveryOrder.AnchorEarly` | crates/remoteway-transport/src/ssh_transport.rs:180-186 | the oldest queued anchor is at most FRAME_QUEUE_DEPTH places early |
| `DeliveryOrder.FrameEarly` | crates/remoteway-transport/src/ssh_transport.rs:180-186 | a regular frame is at most one place early: only an anchor that slipped in after the anchor queue was found empty can be behind it |
| `DeliveryOrder.AnchorOrdered` | crates/remoteway-transport/src/ssh_transport.rs:56-58 | queueing an anchor at a multiple of the anchor interval keeps the order invariant |
| `DeliveryOrder.FrameOrdered` | crates/remoteway-transport/src/ssh_transport.rs:62-64 | queueing a regular frame keeps the order invariant |
| `DeliveryOrder.PlacesEarly` | crates/remoteway-transport/src/ssh_transport.rs:171-195 | a message is early by at most the number of older messages still waiting |
| `DeliveryOrder.LackingUpTo` | crates/remoteway-transport/src/ssh_transport.rs:171-195 | how many older messages a stretch of the pipe can lack |
| `TransportQueues.TransportSender.SendInput` | crates/remoteway-transport/src/ssh_transport.rs:50-52 | input is queued unless the writer is gone, and nothing else changes |
| `TransportQueues.TransportSender.SendAnchor` | crates/remoteway-transport/src/ssh_transport.rs:56-58 | anchors are queued without bound unless the writer is gone |
| `TransportQueues.TransportSender.TrySendFrame` | crates/remoteway-transport/src/ssh_transport.rs:62-64 | a frame is queued exactly if fewer than two wait and the writer lives |
| `TransportQueues.TransportSender.WritePass` | crates/remoteway-transport/src/ssh_transport.rs:178-195 | an undisturbed pass hands the first message in priority order to the pipe, and is one to three single looks |
| `TransportQueues.TransportSender.Look` | crates/remoteway-transport/src/ssh_transport.rs:180-186 | one look of the biased writer at one queue, with senders free to run between two looks |
| `TransportQueues.TransportSender.Disconnect` | crates/remoteway-transport/src/ssh_transport.rs:187-197 | a failed write ends the writer: what is queued stays unwritten and nothing more is taken on |
| `TransportQueues.PollConserves` | crates/remoteway-transport/src/ssh_transport.rs:178-195 | the writer neither loses, duplicates nor invents a message |
| `TransportQueues.PollExtends` | crates/remoteway-transport/src/ssh_transport.rs:178-195 | the pipe only grows, by at most one message a look |
| `TransportQueues.WriteRestarts` | crates/remoteway-transport/src/ssh_transport.rs:178-186 | a look that writes a message leaves the writer at the start of a pass, before the input queue |
| `TransportQueues.DrainsInOrder` | crates/remoteway-transport/src/ssh_transport.rs:178-195 | left alone from the start of a pass, enough looks write all input messages, then all anchors, then all frames, each queue in its order, and leave nothing queued |
| `TransportQueues.ClosedForGood` | crates/remoteway-transport/src/ssh_transport.rs:187-197 | once the writer has failed, nothing is taken on and nothing written |
| `Priority.NothingPassesInput` | crates/remoteway-transport/src/ssh_transport.rs:178-195 | in any run, whoever sends meanwhile: an anchor or a frame is written only if the writer has found the input queue empty since its last write, and a frame only if it has then found the anchor queue empty as well |
| `Priority.TurnTells` | crates/remoteway-transport/src/ssh_transport.rs:178-186 | where the writer stands in its pass tells which queues it has found empty since it last wrote |
| `Priority.NothingAfterFailure` | crates/remoteway-transport/src/ssh_transport.rs:187-197 | whatever a run goes on with after the failure of the writer, pipe and queues stay as they were then |
| `Priority.InputsInOrder` | crates/remoteway-transport/src/ssh_transport.rs:50-52 | in every run the input messages on the pipe, followed by those that wait, are the ones sent while the writer lived, in the order sent |
| `EndToEnd.AnyPart` | crates/remoteway-transport/src/ssh_transport.rs:144-169 | in any run, cut the bytes the loops handed to the pipe anywhere and stop anywhere: no parse error, no crash; the client holds exactly the effect of the first k packets, which are exactly those read in full, and lacks at most two older messages |
| `EndToEnd.AllBytes` | crates/remoteway-transport/src/ssh_transport.rs:144-169 | once the queues of the loops are empty, all bytes they handed to the pipe, in any fragmentation, give a fresh client the picture of the loop's own base on visible bytes |
| `EndToEnd.ReadObjects` | crates/remoteway-client/src/pipeline.rs:138-214 | parser and receive loop as objects, given any fragments, end in the state these theorems speak of |
| `EndToEnd.BytesToMessages` | crates/remoteway-transport/src/ssh_transport.rs:144-169 | any part of the bytes parses to the first k packets, whole and in order, where packet j is among them if and only if its last byte has been read |
| `EndToEnd.MessagesToPicture` | crates/remoteway-client/src/pipeline.rs:138-214 | decoding the received messages one by one never fails and accumulates their masks |
| `PartialReads.PartialRead` | crates/remoteway-transport/src/multiplexer.rs:70-153 | a part of the bytes of any list of sendable messages, in any fragmentation, gives without error the first messages of the list, and the first j are among them if and only if their bytes have all been read |
| `PartialReads.PushPart` | crates/remoteway-transport/src/multiplexer.rs:70-112 | a part of an error-free byte stream parses without error to a prefix of its messages |
| `Refinement.RunsMirror` | crates/remoteway-server/src/pipeline.rs:340-511 | in every run the loops on byte queues and the step system on packets, started together, have the same server state and queues that carry each other's messages |
| `Refinement.StepMirrors` | crates/remoteway-server/src/pipeline.rs:340-511 | each step keeps them together |
| `Refinement.RunObjects` | crates/remoteway-server/src/pipeline.rs:330-511 | the loop object with its transport object, taken through any valid run by their own methods, end in the state of the byte run |
| `Refinement.MayEncode` | crates/remoteway-server/src/pipeline.rs:445-453 | whenever the loop object is called in a run, the encoder stays inside its buffers |
| `Refinement.PipedIsWritten` | crates/remoteway-transport/src/ssh_transport.rs:187-192 | in every run the first j byte strings handed to the pipe are the wire form of the first j packets written, for every j |
| `Refinement.IterateCarries` | crates/remoteway-server/src/pipeline.rs:441-511 | an iteration of the imperative loop on byte queues is one encode step of the system |
| `Refinement.InputCarries` | crates/remoteway-transport/src/ssh_transport.rs:50-52 | queueing an input message keeps the byte queues carrying the packets |
| `Refinement.CloseCarries` | crates/remoteway-transport/src/ssh_transport.rs:187-195 | so does the end of the writer |
| `Refinement.PollCarries` | crates/remoteway-transport/src/ssh_transport.rs:178-195 | the writer picks the same message from the byte queues as the system from its packets |
| `Refinement.PipeCarries` | crates/remoteway-transport/src/ssh_transport.rs:187-192 | byte strings that carry packets, joined, are the wire form of those packets |
| `ChunkSender.RoundTrip` | crates/remoteway-transport/src/chunk_sender.rs:10-54 | any list of messages, each with its own chunk size up to 4 MiB and no LAST_CHUNK in the extra flags, in any fragmentation: exactly those payloads in order with stream, type and timestamp, nothing left behind |
| `ChunkSender.SplitIntoChunks` | crates/remoteway-transport/src/chunk_sender.rs:10-54 | the loop appends exactly the wire form of the message's chunks |
| `ChunkSender.Delivered` | crates/remoteway-transport/src/chunk_sender.rs:33-53 | what arrives has the payload, stream, type and timestamp that were sent, under a last-chunk header |
| `ChunkSender.HeaderIsLastChunks` | crates/remoteway-transport/src/chunk_sender.rs:33-53 | the header the receiver reports is the last chunk's |
| `ChunkSender.ChunkCountIsExact` | crates/remoteway-transport/src/chunk_sender.rs:58-63 | `chunk_count` is the number of chunks the splitter produces, and one for the chunk size zero |
| `ChunkSender.ChunkByIndex` | crates/remoteway-transport/src/chunk_sender.rs:19-54 | chunk k carries the bytes from k times the chunk size on under the message's stream, type and timestamp; the last chunk alone adds the flag 2; an empty message is one empty chunk |
| `ChunkSender.AllChunksReassemble` | crates/remoteway-transport/src/multiplexer.rs:115-153 | a message list is reassembled to itself without disturbing other open streams |
| `ChunkSurvival.SurvivesExactly` | crates/remoteway-transport/src/chunk_sender.rs:19-54 | a message survives splitter and parser if and only if no chunk exceeds 4 MiB and LAST_CHUNK is not set in the extra flags of a multi-chunk message |
| `ChunkSurvival.OversizedIsRefused` | crates/remoteway-transport/src/multiplexer.rs:81-84 | a chunk above the limit is refused |
| `ChunkSurvival.OversizedIsLost` | crates/remoteway-transport/src/chunk_sender.rs:43-49 | a chunk of 4 GiB or more has a truncated length and never arrives as sent |
| `Framing.FragmentationIndependence` | crates/remoteway-transport/src/multiplexer.rs:70-112 | however the bytes are cut, the read loop gives the same error, messages and parser as one push of all of them |
| `Framing.PushTwice` | crates/remoteway-transport/src/multiplexer.rs:70-112 | two pushes are one push of the joined bytes, errors included |
| `Framing.FastPathAgrees` | crates/remoteway-transport/src/multiplexer.rs:125-152 | the single-chunk fast path equals the accumulating path |
| `Framing.WireScan` | crates/remoteway-transport/src/multiplexer.rs:74-103 | whatever the parser takes from its buffer is what a printer would have written |
| `Framing.ScanWire` | crates/remoteway-transport/src/multiplexer.rs:74-103 | scanning gives back exactly the chunks that were printed, whatever follows |
| `Framing.WireIsReassembled` | crates/remoteway-transport/src/multiplexer.rs:70-153 | any fragmentation of valid chunks is reassembled chunk by chunk with an empty buffer at the end |
| `Framing.FailureIsSticky` | crates/remoteway-transport/src/multiplexer.rs:82-94 | after a failed push every later push fails with the same error and emits nothing |
| `Framing.PushConservesBytes` | crates/remoteway-transport/src/multiplexer.rs:70-153 | bytes fed = 16 per consumed chunk + emitted payload + bytes held for open streams + unparsed buffer |
| `Framing.FrontIsPrinted` | crates/remoteway-transport/src/multiplexer.rs:74-103 | a complete front chunk is a valid chunk, and its 16 header bytes and payload are exactly the front of the buffer |
| `Framing.FrontByBytes` | crates/remoteway-transport/src/multiplexer.rs:74-103 | the front of any buffer by its bytes, in the order of the checks: less than 16 bytes; a length above 4194304; less than the payload; a type above 8; or a chunk with the header and payload that lie there |
| `Framing.ReadLoopStep` | crates/remoteway-transport/src/ssh_transport.rs:144-169 | one more read: its messages come out unless it fails, then they are lost and the error stays; after an error nothing is read |
| `StreamParsing.StreamParser.constructor` | crates/remoteway-transport/src/multiplexer.rs:62-67 | a new parser is empty |
| `StreamParsing.StreamParser.Push` | crates/remoteway-transport/src/multiplexer.rs:70-112 | the loop computes the specified push, takes exactly the scanned chunks from the buffer, drops the messages of a failing push, and terminates |
| `StreamParsing.StreamParser.ReadLoop` | crates/remoteway-transport/src/ssh_transport.rs:144-169 | the read loop pushes what every read returns and stops at the first error; its messages, error and parser are the specified ones |
| `StreamParsing.StreamParser.Reassemble` | crates/remoteway-transport/src/multiplexer.rs:115-153 | one chunk updates the stream map and emits at most one message as specified |
| `StreamParsing.StreamParser.InProgressStreams` | crates/remoteway-transport/src/multiplexer.rs:157-159 | over everything the parser has consumed, the number of streams whose latest chunk lacked LAST_CHUNK |
| `Interleaving.AnyInterleaving` | crates/remoteway-transport/src/multiplexer.rs:115-159 | chunks of any streams in any order and fragmentation: each stream delivers its own messages complete and in order |
| `Interleaving.StreamsAreIndependent` | crates/remoteway-transport/src/multiplexer.rs:115-153 | what a stream delivers depends on its own chunks alone |
| `Interleaving.InProgressIsOpen` | crates/remoteway-transport/src/multiplexer.rs:157-159 | the map holds exactly the streams whose latest chunk lacked LAST_CHUNK |
| `Header.TryFrom` | crates/remoteway-proto/src/header.rs:31-47 | the type byte is accepted exactly up to 8 and names the type with that code |
| `Header.HeaderRoundTrip` | crates/remoteway-proto/src/header.rs:63-76 | header to 16 bytes and back |
| `Header.HeaderBytesRoundTrip` | crates/remoteway-proto/src/header.rs:63-76 | any 16 bytes are the bytes of the header they parse to |
| `Header.HeaderLayout` | crates/remoteway-proto/src/header.rs:56-76 | the sixteen bytes of a header by place value: stream in 0-1, type in 2, flags in 3, length in 4-7, timestamp in 8-15, least significant byte first; the flag 2 marks the last chunk |
| `Header.ParseLayout` | crates/remoteway-proto/src/header.rs:56-76 | what is read from any sixteen bytes is what they hold in those places |
| `Header.TypeBytes` | crates/remoteway-proto/src/header.rs:31-47 | the nine type bytes |
| `Delta.DecodeEncode` | crates/remoteway-compress/src/delta.rs:134-156 | decoding an encoded delta over any base flips exactly the covered bytes by current XOR previous, overlaps included |
| `Delta.DecodeOwnBase` | crates/remoteway-compress/src/delta.rs:134-156 | over its own base: current inside the regions, previous outside |
| `Delta.DecodeLinear` | crates/remoteway-compress/src/delta.rs:134-156 | any delta flips fixed bits, whatever the base |
| `Delta.ScatterGathered` | crates/remoteway-compress/src/delta.rs:143-154 | the decoder reads exactly the bytes the encoder wrote, byte by byte |
| `Delta.EncodeConcat` | crates/remoteway-compress/src/delta.rs:53-64 | the delta of a region list is the concatenation of the deltas of its parts |
| `Delta.EncodeOneLength` | crates/remoteway-compress/src/pipeline.rs:68-72 | the length the compressor assumes for a region is what the encoder writes |
| `Delta.EncodeOneAt` | crates/remoteway-compress/src/delta.rs:53-64 | the delta of a region byte by byte: rows from the top, each from the left, in every place the XOR of the two frames there |
| `Delta.SpansFit` | crates/remoteway-compress/src/delta.rs:55-61 | rectangles inside the frame never reach outside the buffer |
| `Delta.SpansCover` | crates/remoteway-compress/src/delta.rs:55-61 | a byte is touched exactly when one of the rectangles contains its pixel |
| `Delta.ReachExactly` | crates/remoteway-compress/src/delta.rs:143-154 | the decoder stays in bounds exactly if every byte it would write lies in the frame |
| `DeltaCodec.DeltaEncodeScalar` | crates/remoteway-compress/src/delta.rs:44-66 | the scalar encoder appends the specified delta and returns its length |
| `DeltaCodec.DeltaEncodeSimd` | crates/remoteway-compress/src/delta.rs:72-96 | the lane encoder appends the very same bytes |
| `DeltaCodec.XorIntoVecSimd` | crates/remoteway-compress/src/delta.rs:99-120 | 32-byte lanes plus tail are the XOR of the slices |
| `DeltaCodec.DeltaEncodeRegion` | crates/remoteway-compress/src/lz4.rs:50-71 | the per-region encoder gives the delta of that region |
| `DeltaCodec.DeltasOfRegions` | crates/remoteway-compress/src/lz4.rs:39-43 | one delta per region, in region order |
| `DeltaCodec.JoinedDeltas` | crates/remoteway-compress/src/lz4.rs:33-47 | the per-region deltas joined are the whole delta |
| `DeltaCodec.DeltaDecode` | crates/remoteway-compress/src/delta.rs:134-156 | the in-place decoder computes the specified frame in its output buffer |
| `DeltaCodec.DecodeRect` | crates/remoteway-compress/src/delta.rs:144-154 | one rectangle of the decoder, with its running offset |
| `DeltaCodec.DecodeRow` | crates/remoteway-compress/src/delta.rs:150-153 | one row of the decoder |
| `Stripes.StripeFullFrame` | crates/remoteway-server/src/pipeline.rs:38-53 | the loop produces the specified stripes |
| `Stripes.StripesShape` | crates/remoteway-server/src/pipeline.rs:38-53 | min(n as a 32-bit number, height) stripes, at least one, full width, inside the frame, never taller downwards, heights within one row of each other |
| `Stripes.StripesPartitionRows` | crates/remoteway-server/src/pipeline.rs:43-51 | every row lies in exactly one stripe |
| `Stripes.StripesEncodeAsFull` | crates/remoteway-server/src/pipeline.rs:419-426 | the delta over the stripes is byte for byte the delta over the single full rectangle |
| `Stripes.StripesCover` | crates/remoteway-server/src/pipeline.rs:419-426 | the stripes cover every visible byte |
| `FramePayload.SerializeFramePayload` | crates/remoteway-server/src/pipeline.rs:290-316 | the loop writes the specified payload |
| `FramePayload.DeserializeFramePayload` | crates/remoteway-client/src/pipeline.rs:41-92 | the parser returns the specified result, errors included |
| `FramePayload.SerializeRoundTrip` | crates/remoteway-client/src/pipeline.rs:41-92 | parsing a serialized payload gives back dimensions, rectangles, sizes, offsets and data |
| `FramePayload.DeserializeRoundTrip` | crates/remoteway-client/src/pipeline.rs:41-92 | serializing a parsed payload reproduces it byte for byte |
| `FramePayload.DeserializedIsTiled` | crates/remoteway-client/src/pipeline.rs:62-89 | in every accepted payload the offsets are prefix sums of the sizes and stay inside the data |
| `FramePayload.MetaRoundTrip` | crates/remoteway-proto/src/frame.rs:9-20 | the 16-byte frame record, there and back |
| `FramePayload.RegionRoundTrip` | crates/remoteway-proto/src/frame.rs:39-52 | the 20-byte region record, there and back |
| `FramePayload.MetaLayout` | crates/remoteway-proto/src/frame.rs:9-20 | the frame record by place value: width, height, stride and count in four bytes each, least significant first |
| `FramePayload.RegionLayout` | crates/remoteway-proto/src/frame.rs:39-52 | the region record by place value: x, y, width, height and blob size |
| `FramePayload.SerializeLayout` | crates/remoteway-server/src/pipeline.rs:290-316 | the written payload by its bytes: the frame record, a region record every twenty bytes, then the blobs |
| `FramePayload.DeserializeExactly` | crates/remoteway-client/src/pipeline.rs:41-92 | exactly when a payload is accepted or refused with which error, in terms of its bytes, and what an accepted one holds |
| `Pipeline.CompressFrameInto` | crates/remoteway-compress/src/pipeline.rs:38-99 | encode once, cut, compress every piece, stitch: the specified compressed frame |
| `Pipeline.SliceRegions` | crates/remoteway-compress/src/pipeline.rs:66-72 | cutting the scratch buffer at running lengths gives the per-region deltas |
| `Pipeline.DecompressFrameInto` | crates/remoteway-compress/src/pipeline.rs:129-166 | decode every blob, join, delta-decode: the specified result, with codec failure and index panic; a rectangle without bytes never panics wherever it lies |
| `Pipeline.CompressTiled` | crates/remoteway-compress/src/pipeline.rs:84-90 | offsets are prefix sums and the blobs fill the data exactly |
| `Pipeline.BlobIsCompressed` | crates/remoteway-compress/src/pipeline.rs:66-90 | the blob in the place of region k is the compressed delta of that region alone |
| `Pipeline.DecompressExactly` | crates/remoteway-compress/src/pipeline.rs:129-166 | decompression fails exactly if a blob does, runs out of bounds exactly if a row reaches outside the base or the blobs are too short, and otherwise changes nothing outside the rectangles |
| `Pipeline.CompressRoundTrip` | crates/remoteway-compress/src/pipeline.rs:129-166 | with a lossless codec, compress and decompress over any base is delta coding over that base |
| `Pipeline.PayloadRoundTrip` | crates/remoteway-server/src/pipeline.rs:290-316 | compress, stitch, serialize, deserialize, decompress: everything comes back, current inside the regions and previous outside |
| `BoxFilter.ImageExactly` | crates/remoteway-server/src/pipeline.rs:154-177 | for all contents of the frame, a destination byte is the floor mean of its channel over its block if and only if 255 times the pixels of the block fit the 32-bit accumulators |
| `BoxFilter.LargeWhiteDarkens` | crates/remoteway-server/src/pipeline.rs:154-177 | an input where they do not: a white frame of 8192 x 4096 pixels, shrunk to one, comes out as 127 |
| `BoxFilter.ImageIsCodeMean` | crates/remoteway-server/src/pipeline.rs:143-178 | every channel of every destination pixel is the sum over its source block, cut to 32 bits, divided by the number of pixels; the block lies inside the source |
| `BoxFilter.ImageIsBoxMean` | crates/remoteway-server/src/pipeline.rs:143-178 | where a white block would fit, that is the floor mean |
| `BoxFilter.FittingSum` | crates/remoteway-server/src/pipeline.rs:154-177 | a block whose pixels times 255 fit 32 bits loses nothing in its accumulators |
| `BoxFilter.MeanWithin` | crates/remoteway-server/src/pipeline.rs:172-177 | the floor mean lies between the minimum and the maximum of the block |
| `BoxFilter.BlockInside` | crates/remoteway-server/src/pipeline.rs:145-152 | every block is non-empty and inside the source |
| `BoxFilter.TilesExactly` | crates/remoteway-server/src/pipeline.rs:145-152 | the blocks of an axis partition the source cells if and only if the destination is not longer than the source |
| `BoxFilter.BlockByRatio` | crates/remoteway-server/src/pipeline.rs:145-152 | which source cells a block holds, by the ratio of the sizes alone: shrinking, those whose scaled end lies in the cell; stretching, the one its start lies in |
| `BoxFilter.BlockPixels` | crates/remoteway-server/src/pipeline.rs:154-170 | the bytes summed for a channel are those of the source pixels in the block on both axes |
| `BoxFilter.BlockCountsOnce` | crates/remoteway-server/src/pipeline.rs:160-170 | a block sum counts every byte of the block once and no other byte |
| `BoxFilter.BlackUnlessShrinking` | crates/remoteway-server/src/pipeline.rs:127-136 | unless a dimension shrinks, the target stays zero |
| `BoxFilter.PixelOwner` | crates/remoteway-server/src/pipeline.rs:143-152 | when both axes shrink, every source pixel belongs to exactly one destination pixel |
| `BoxFilter.ImageLength` | crates/remoteway-server/src/pipeline.rs:122-125 | the image has destination stride times destination height bytes |
| `BoxFilter.DownscaleBox` | crates/remoteway-server/src/pipeline.rs:111-182 | the nested loops, with wrapping 32-bit accumulators, fill the destination with the specified image and return its stride |
| `BoxFilter.FillRows` | crates/remoteway-server/src/pipeline.rs:139-179 | the destination rows, one after the other |
| `BoxFilter.FillRow` | crates/remoteway-server/src/pipeline.rs:143-178 | one destination row |
| `BoxFilter.AveragePixel` | crates/remoteway-server/src/pipeline.rs:154-177 | one destination pixel: five wrapping accumulators over the block and four divisions |
| `BoxFilter.AverageRow` | crates/remoteway-server/src/pipeline.rs:162-169 | one row of a block, added to the accumulators |
| `BufferPool.RunsPartition` | crates/remoteway-core/src/buffer_pool.rs:60-97 | any interleaving of any threads: free bits and held slots partition 0..capacity, no slot has two holders, no bit at or above the capacity is set |
| `BufferPool.StepInv` | crates/remoteway-core/src/buffer_pool.rs:60-97 | every load, weak compare-exchange (spurious failures too) and fetch-or keeps that |
| `BufferPool.ExhaustedMeansAllHeld` | crates/remoteway-core/src/buffer_pool.rs:62-65 | `None` means that all slots were held at the load |
| `BufferPool.GotWasFree` | crates/remoteway-core/src/buffer_pool.rs:66-77 | a slot handed out was the lowest free one, below the capacity, and now has one holder |
| `BufferPool.FailuresBounded` | crates/remoteway-core/src/buffer_pool.rs:60-80 | over any run of any interleaving, a thread's genuine compare-exchange failures are at most the operations that took effect, and those of k threads together at most k times as many |
| `BufferPool.RunPaid` | crates/remoteway-core/src/buffer_pool.rs:66-73 | and at most those that took effect before its last load, while it is between a load and its compare-exchange |
| `BufferPool.FailureMeansProgress` | crates/remoteway-core/src/buffer_pool.rs:68-72 | the step behind it: a compare-exchange that fails non-spuriously means another operation took effect since the load |
| `BufferPool.CallsReturn` | crates/remoteway-core/src/buffer_pool.rs:60-80 | in every run each call of `acquire` returns at most once, with one slot or none: a thread's returns are its calls less the one it is in |
| `BufferPool.ReturnLeaves` | crates/remoteway-core/src/buffer_pool.rs:62-78 | a step that returns to its caller was taken inside `acquire` and leaves the thread outside |
| `BufferPool.AloneAcquires` | crates/remoteway-core/src/buffer_pool.rs:60-80 | an undisturbed call as steps: after any number of spurious failures it returns with the lowest free slot, takes its bit and gives out one handle; without a free slot it returns with nothing |
| `BufferPool.FreeCount` | crates/remoteway-core/src/buffer_pool.rs:157-159 | free slots and outstanding handles add up to the capacity |
| `BufferPool.LowestIsLowest` | crates/remoteway-core/src/buffer_pool.rs:66-66 | `trailing_zeros` is the lowest free slot |
| `BufferPool.FullMaskBits` | crates/remoteway-core/src/buffer_pool.rs:46-50 | the initial mask frees exactly the slots below the capacity |
| `BufferPool.SharedPool.Acquire` | crates/remoteway-core/src/buffer_pool.rs:60-80 | undisturbed, `acquire` takes the lowest free slot whatever the number of spurious failures |
| `BufferPool.SharedPool.Release` | crates/remoteway-core/src/buffer_pool.rs:87-97 | `release` sets the bit and detects that it was already set |
| `BufferPool.SharedPool.constructor` | crates/remoteway-core/src/buffer_pool.rs:30-57 | all slots below the capacity are free |
| `BufferPool.SlotPlace` | crates/remoteway-core/src/buffer_pool.rs:104-109 | every slot of every pool, of one slot too, starts on a 64-byte boundary, holds a frame with less than 64 bytes to spare, and lies inside the allocation |
| `BufferPool.SlotsDisjoint` | crates/remoteway-core/src/buffer_pool.rs:104-109 | no byte belongs to two slots |
| `BufferPool.AllocationEmpty` | crates/remoteway-core/src/buffer_pool.rs:32-41 | the allocation is empty if and only if the frame size is zero |
| `Transform.FlipRows` | crates/remoteway-capture/src/ext_capture.rs:119-129 | the in-place loop realises the row permutation exactly |
| `Transform.MirrorRows` | crates/remoteway-capture/src/ext_capture.rs:132-142 | the in-place loops realise the pixel permutation of every row exactly |
| `Transform.FlipTwice` | crates/remoteway-capture/src/ext_capture.rs:119-129 | flip is its own inverse |
| `Transform.MirrorTwice` | crates/remoteway-capture/src/ext_capture.rs:132-142 | mirror is its own inverse |
| `Transform.FlipMirrorCommute` | crates/remoteway-capture/src/ext_capture.rs:119-142 | flip and mirror commute |
| `Transform.FlipMirrorRotates` | crates/remoteway-capture/src/ext_capture.rs:488-492 | both together reverse the pixels of the buffer: the 180-degree rotation |
| `Transform.Undo` | crates/remoteway-capture/src/ext_capture.rs:486-508 | the match on the transform value: resulting buffer and whether the whole frame is damaged |
| `Transform.OthersUntouched` | crates/remoteway-capture/src/ext_capture.rs:502-508 | every value other than 2, 4 and 6 leaves the buffer as it is |
| `Transform.SpareStays` | crates/remoteway-capture/src/ext_capture.rs:119-142 | bytes past the last whole row, and those of a row past its last whole pixel, stay |
| `Transform.CapturedIsUpright` | crates/remoteway-capture/src/ext_capture.rs:486-500 | at the stride the capture uses, four bytes a pixel: for 0, 2, 4 and 6, undoing the compositor's transform gives back the upright picture, and in a buffer of whole rows every byte of it |
| `Transform.UndoUndoes` | crates/remoteway-capture/src/ext_capture.rs:119-142 | the two helpers taken alone, at any stride and whatever picture and padding hold: they undo 0 and 6 always, and 2 and 4 if and only if a row has no room for a padding pixel |
| `Transform.TightUndoes` | crates/remoteway-capture/src/ext_capture.rs:119-142 | the direction in which they do, for any two buffers of which one shows the transformed picture of the other |
| `Transform.PaddingShows` | crates/remoteway-capture/src/ext_capture.rs:119-142 | for every padded size a buffer on which the helpers alone would not |
| `Transform.UndoRotation` | crates/remoteway-capture/src/ext_capture.rs:488-492 | in a buffer of whole rows of whole pixels, undoing value 2 undoes the rotation of every byte |
| `Transform.MirrorNeedsTightRows` | crates/remoteway-capture/src/ext_capture.rs:132-142 | the visible pixels of a row are mirrored onto themselves if and only if the row has no room for a padding pixel |
| `Latency.RingUnrolls` | crates/remoteway-core/src/latency.rs:66-72 | read from the cursor, a full ring is the last `capacity` records in order; before that it is the whole history |
| `Latency.RingKeepsLast` | crates/remoteway-core/src/latency.rs:66-72 | the samples are exactly the last min(count, capacity) records as a multiset |
| `Latency.PercentilesOrdered` | crates/remoteway-core/src/latency.rs:122-134 | min <= p50 <= p99 <= max for every capacity and at least one record |
| `Latency.NthOrdered` | crates/remoteway-core/src/latency.rs:130-133 | the sample of a rank is unique and ranks follow the order of the samples |
| `Latency.PercentilesByCount` | crates/remoteway-core/src/latency.rs:122-134 | by counts, and for no other samples: at most half of them are below p50 and more than half not above it, at most 99 in a hundred below p99 and more not above it |
| `Latency.AverageBetween` | crates/remoteway-core/src/latency.rs:89-93 | while the count fits 32 bits, min <= average <= max |
| `Latency.ExtremesAttained` | crates/remoteway-core/src/latency.rs:75-76 | the minimum and the maximum are records |
| `Latency.SumSplits` | crates/remoteway-core/src/latency.rs:74-74 | the sum of a history is the sum of its parts, and of one record it is that record |
| `Latency.AverageIsMean` | crates/remoteway-core/src/latency.rs:89-93 | the average is the floor mean for every sum if and only if the count fits 32 bits |
| `Latency.LatencyHistogram.constructor` | crates/remoteway-core/src/latency.rs:53-63 | an empty histogram, for every capacity of the vector |
| `Latency.LatencyHistogram.Record` | crates/remoteway-core/src/latency.rs:66-77 | one record extends the history the fields stand for; it panics exactly if the vector has no capacity |
| `Latency.LatencyHistogram.RecordNs` | crates/remoteway-core/src/latency.rs:80-84 | only a positive interval is recorded, with that panic |
| `Latency.LatencyHistogram.Reset` | crates/remoteway-core/src/latency.rs:113-120 | the history is empty again |
| `Latency.LatencyHistogram.Percentiles` | crates/remoteway-core/src/latency.rs:122-134 | the samples of rank n/2 and min(99n/100, n - 1) |
| `Latency.LatencyHistogram.GetStats` | crates/remoteway-core/src/latency.rs:88-110 | count, min, max, average and percentiles of the history; a panic exactly when a positive count is a multiple of 2^32 |
| `Presentation.PresentationSync.RecordPresentation` | crates/remoteway-display/src/presentation.rs:58-72 | one feedback sample: saturating interval, filter, warm-up, average |
| `Presentation.PresentationSync.constructor` | crates/remoteway-display/src/presentation.rs:32-41 | the 60 Hz default without samples |
| `Presentation.AlwaysInRange` | crates/remoteway-display/src/presentation.rs:58-72 | whatever the timestamps, the estimate stays in 1..99,999,999 |
| `Presentation.NextEstimate` | crates/remoteway-display/src/presentation.rs:58-72 | the estimate after one more sample, by the timestamps alone: first, stale and 100 ms late samples change nothing, the second to fourth replace it, later ones count for one part in eight |
| `Presentation.SmoothApproaches` | crates/remoteway-display/src/presentation.rs:65-67 | an averaging step never crosses the interval and stands still exactly on [T - 7, T] |
| `Presentation.NeverFarther` | crates/remoteway-display/src/presentation.rs:65-67 | under a constant interval the distance never grows |
| `Presentation.Converges` | crates/remoteway-display/src/presentation.rs:65-67 | at most 162 samples bring any estimate into [T - 7, T] for good |
| `Presentation.SteadyConverges` | crates/remoteway-display/src/presentation.rs:58-72 | the same for a display that presents every T nanoseconds |

## Left out

- LZ4 and zstd: the codec is any pair of functions of which one inverts the other; the fallback to an empty blob when zstd fails is not modelled.
- Deriving honest damage from the capture thread: it is the stated assumption of a run.
- Changes of the frame size during a session, and the Resize message that announces them: the server loop never sends one; the client's reaction is modelled in `Client.Receive`.
- The handshake: it is queued as an anchor before the session begins and read before the first frame.
- Input events beyond opaque messages of other types that pass through the input queue.
- Machine overflow: frame sizes are bounded so that `stride * height` fits 32 bits; 64-bit counters and the sum of durations are unbounded integers. The accumulators of the box filter wrap, as in a build without overflow checks; a build with them panics instead.
- The nearest-neighbour filter: the session takes any filter with the right output size.
- Scale factors, rounding of the target size, bicubic upscaling, interpolation and the FPS overlay: floating point.
- Timing statistics of the compressor, log output, thread placement and the buffers kept for reuse.
- Memory ordering: atomic operations are sequentially consistent steps.
- Ownership of pool handles beyond "released once": a handle is its slot number, so a stale handle cannot be told from a fresh one.
- The bounded incoming channel of the client: it is first-in first-out and only delays deliveries.
- A partly written message at the failure of the pipe is covered as an unread rest of the bytes (`EndToEnd.AnyPart`).
- `select!` is a sequence of looks in priority order; a writer that is suspended in the middle of a write looks at nothing.
- BoxFilter.DownscaleBox: rows are filled in order, while the source hands them to parallel workers that share nothing but the source frame.
- Server.CompressSendLoop.Iterate: takes the contents of the capture ring as an argument and requires that the encoder stays in bounds, which `Session.NeverPanics` proves for every run.
- Presentation.SteadyConverges: timestamps are bounded by 2^64 like the field that holds them.
- Display surfaces, shared memory, cursor, clipboard, capture protocols, portals, process launch and command line: input and output without a visible state to reason about.
