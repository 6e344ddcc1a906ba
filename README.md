# A verified model of a user-space TCP/IP stack

This project models the core of a small user-space TCP/IP stack written in C++ and proves properties of that model. The stack has these layers:

- **ByteStream** (`ByteStreams`, `byte_stream.dfy`): a bounded in-memory pipe of bytes.
- **Wrap32** (`Wrap32`, `wrap32.dfy`): conversion between 64-bit absolute stream indices and 32-bit TCP sequence numbers.
- **Reassembler** (`Reassembly`, `reassembler.dfy`, plus `PendingRanges`, `pending_ranges.dfy`): puts out-of-order substrings back in order and writes them into a ByteStream. `PendingRanges` models its ordered store of held ranges, a `std::map` keyed by first index.
- **TCPReceiver** (`TCPReceiving`, `tcp_receiver.dfy`): turns incoming segments into reassembler inserts and reports the acknowledgment number and the window.
- **RetransmissionTimer and TCPSender** (`TCPSending`, `tcp_sender.dfy`): cut the outbound stream into segments that fit the peer's window, track the unacknowledged ones and retransmit the oldest when the timer expires, with exponential backoff.
- **NetworkInterface** (`NetworkInterfaces`, `network_interface.dfy`): ARP resolution (RFC 826) between IPv4 next hops and Ethernet addresses, with a queue of datagrams waiting for a reply.
- **Router** (`Routing`, `router.dfy`): a longest-prefix-match forwarding table, and the loop that moves every received datagram to its outgoing interface.

Objects whose fields the source updates in place are classes: `ByteStream`, `Reassembler`, `TCPReceiver`, `RetransmissionTimer`, `TCPSender`, `NetworkInterface` and `Router`. Their methods are proved against value-level specifications:

- `StreamState`, `RState` and `Inserted` for the byte stream and the reassembler;
- `RecvState` and `Received` for the receiver;
- `SenderState`, `AfterAck`, `Ticked` and `PushedFrom` for the sender;
- `InterfaceState`, `OnSend`, `OnFrame` and `OnTick` for the interface;
- `Lookup`, `Forward`, `RouteAll` and `Deliver` for the router.

The properties of the stack are proved as lemmas about those specifications. Wire formats are abstracted: `NetworkFrames.Wire` is the result of serializing a datagram or an ARP message, or bytes that are neither, and parsing returns `Option`. Callbacks are modelled as logs:

- the frames an interface transmits are appended to its `sent` log;
- the segments the sender transmits are returned by `Push` and `Tick`;
- the router returns the forwardings it made.

Where the prose description of the system and the code differ, the model follows the code, except for the router's `match`, where forwarding uses the corrected lookup (see "## Findings"):

- `Reader::pop(n)` with `n` larger than the buffered count pops everything buffered and does not enter an error state (`src/byte_stream.cc:63-80`).
- The router's key for a route is the prefix *rotated* right, not shifted (`src/router.cc:29`). A prefix with bits set below its length therefore gets a key that no destination can probe (`Routing.DirtyRouteInert`).
- A pending ARP request that times out frees the request marker but keeps the queued datagrams (`src/network_interface.cc:111-113`).
- An empty last substring sets the end flag whatever index it claims. With nothing held it closes the stream even though bytes before that index never arrived (`src/reassembler.cc:30-35`, `Reassembly.PrematureClose`).
- A non-empty last substring whose bytes were all written already is dropped before its flag is read. The stream then stays open although every byte up to the announced end has arrived (`src/reassembler.cc:44-46`, `Reassembly.DuplicateLastIgnored`). For this reason `Reassembly.Reassembles` promises only that a stream whose end flag is set is closed. The close itself comes from an empty last substring at the end of the message, which `Reassembly.ReassemblesThenCloses` states for every message.

## Model

| member | source | states |
|---|---|---|
| `Common.Pow2` | src/router.cc:29 | 2^n is at least 1; shifts and rotations by n bits are stated with it |
| `Common.Pow2Add` | src/tcp_sender.hh:22 | 2^a · 2^b = 2^(a+b), used for repeated doubling of the RTO |
| `Common.DivPow2Step` | src/router.cc:61 | halving after dividing by 2^k is dividing by 2^(k+1): repeated `>>= 1` is one wide shift |
| `ByteStreams.ConcatAppend` | src/byte_stream.cc:26-30 | appending a chunk to the chunk queue appends its bytes to the concatenated buffer |
| `ByteStreams.ConcatTrimFront` | src/byte_stream.cc:68 | removing a prefix of the front chunk removes that prefix from the concatenated buffer |
| `ByteStreams.ByteStream.constructor` | src/byte_stream.cc:9 | a new stream has the given capacity, nothing written or popped, and is neither closed nor in error |
| `ByteStreams.ByteStream.ValidState` | src/byte_stream.cc:26-30 | the counters and chunk queue agree with the value-level state: buffered bytes are the written bytes after the popped ones, within capacity |
| `ByteStreams.ByteStream.AvailableCapacity` | src/byte_stream.cc:38-41 | free space plus buffered bytes equals the capacity |
| `ByteStreams.ByteStream.BytesPushed` | src/byte_stream.cc:43-46 | the count of every byte written, which is popped plus buffered |
| `ByteStreams.ByteStream.BytesPopped` | src/byte_stream.cc:53-56 | popped plus buffered equals written |
| `ByteStreams.ByteStream.BytesBuffered` | src/byte_stream.cc:82-85 | the length of the unread bytes, at most the capacity |
| `ByteStreams.ByteStream.IsFinished` | src/byte_stream.cc:48-51 | finished iff closed and nothing is buffered, iff closed and every pushed byte has been popped |
| `ByteStreams.ByteStream.Peek` | src/byte_stream.cc:58-61 | empty iff nothing is buffered; otherwise a non-empty prefix of the buffered bytes |
| `ByteStreams.ByteStream.Push` | src/byte_stream.cc:16-31 | a closed stream ignores the data; otherwise the first min(|data|, free space) bytes are appended to what is written and buffered |
| `ByteStreams.ByteStream.Close` | src/byte_stream.cc:33-36 | the stream is closed and stays valid |
| `ByteStreams.ByteStream.SetError` | src/tcp_receiver.cc:14-17 | the error flag is set and nothing else changes |
| `ByteStreams.ByteStream.Pop` | src/byte_stream.cc:63-80 | the first min(len, buffered) buffered bytes are removed and counted as popped; the written bytes, closed flag and error flag are unchanged |
| `Wrap32.Wrap` | src/wrapping_integers.cc:5-13 | the sequence number is congruent to zero point + n modulo 2^32 |
| `Wrap32.Unwrap` | src/wrapping_integers.cc:15-27 | the result wraps back to the given sequence number |
| `Wrap32.WrapCollision` | src/wrapping_integers.cc:5-13 | two indices wrap to the same sequence number iff they agree modulo 2^32 |
| `Wrap32.WrapResidue` | src/wrapping_integers.cc:17 | any index that wraps to a sequence number has the residue `raw - zero_point` modulo 2^32 |
| `Wrap32.UnwrapIsNearest` | src/wrapping_integers.cc:15-27 | no 64-bit index that wraps to the sequence number is nearer the checkpoint than the unwrapped one |
| `Wrap32.UnwrapWrap` | src/wrapping_integers.cc:15-27 | round trip: an index within 2^31 of the checkpoint is recovered exactly by unwrapping its wrap |
| `Wrap32.UnwrapWithinHalf` | src/wrapping_integers.cc:20-25 | the result lies more than 2^31 above the checkpoint only in the lowest 2^32 block, and more than 2^31 below it only in the highest |
| `Wrap32.UnwrapTieKeepsHighBits` | src/wrapping_integers.cc:19-25 | when both candidates are exactly 2^31 away, unwrap keeps the checkpoint's high 32 bits |
| `PendingRanges.LowerBound` | src/reassembler.cc:11 | `lower_bound`: every entry before the position starts below q, every entry from it on starts at q or above |
| `PendingRanges.CoverHolds` | src/reassembler.cc:65 | every byte of every held entry is in the store at its own index |
| `PendingRanges.SplitEntry` | src/reassembler.cc:18-25 | cutting an entry at an inner position keeps the store ordered and its bytes and size unchanged; no entry then straddles the position, and lower bounds at or below it do not move |
| `PendingRanges.Place` | src/reassembler.cc:57-66 | after the covered entries are erased, the new entry goes in key order and its bytes override the held bytes in its range |
| `PendingRanges.RunHolds` | src/reassembler.cc:68-72 | the contiguous run from an index holds the store's bytes in order and stops at the first gap |
| `PendingRanges.FlushedRun` | src/reassembler.cc:68-72 | draining entry by entry from the write position delivers exactly the contiguous run of held bytes |
| `PendingRanges.RestAbove` | src/reassembler.cc:68-72 | what stays held after the drain is exactly the bytes above the delivered run |
| `PendingRanges.CoverSize` | src/reassembler.cc:61-69 | `total_pending_` (the sum of entry lengths) equals the number of held indices, because entries are disjoint |
| `PendingRanges.EntryBounds` | src/reassembler.cc:19 | an entry's first and last index are held by the store |
| `Reassembly.ClipWindow` | src/reassembler.cc:47-54 | clipping keeps the bytes inside the window, at their own indices, ending at the earlier of the data's end and the window's end |
| `Reassembly.PlacedWithin` | src/reassembler.cc:57-66 | after placing, every held index lies inside the window, and held bytes before the new entry lie above the write position |
| `Reassembly.DrainedFits` | src/reassembler.cc:68-72 | the drained bytes fit the free capacity, are the held bytes from the write position, and on an open stream stop at a gap |
| `Reassembly.HeldWithin` | src/reassembler.cc:68-72 | the bytes still held after the drain lie strictly above the new write position and inside the window |
| `Reassembly.AcceptInv` | src/reassembler.cc:55-75 | accepting a clipped substring keeps the invariant and appends the drained bytes to the stream; a closed stream gets nothing |
| `Reassembly.InsertedInv` | src/reassembler.cc:28-76 | insert keeps the invariant, only extends what is written, never unsets the end flag, and never reopens or writes to a closed stream |
| `Reassembly.InsertedKeeps` | src/reassembler.cc:44-72 | every in-window byte of the inserted substring ends up written or held at its own index |
| `Reassembly.InsertedKeepsPending` | src/reassembler.cc:57-64 | a held byte the new substring does not cover is kept, written or still held |
| `Reassembly.InsertedAccepts` | src/reassembler.cc:39-55 | a non-empty substring that meets the window is clipped and accepted, with the last flag dropped when its tail was cut |
| `Reassembly.InsertedCloses` | src/reassembler.cc:32-34 | the stream closes exactly when the end is known and nothing is held |
| `Reassembly.EmptyInsertIgnoresIndex` | src/reassembler.cc:30-35 | an empty substring's index does not matter; only its last flag does |
| `Reassembly.OutOfWindowIgnored` | src/reassembler.cc:41-46 | a non-empty substring that ends at or before the write position, starts at or after the window's end, or arrives while the stream is full changes nothing |
| `Reassembly.InOrderWritten` | src/reassembler.cc:65-75 | a substring at the write position that fits, with nothing held, is written whole, and closes the stream if it is last |
| `Reassembly.InOrderThenLast` | src/reassembler.cc:28-76 | two in-order substrings are written as they come, and an empty last substring at their end closes the stream |
| `Reassembly.PrematureClose` | src/reassembler.cc:30-35 | an empty last substring closes an empty stream whatever index it claims |
| `Reassembly.DuplicateLastIgnored` | src/reassembler.cc:44-46 | a last substring repeating bytes already written changes nothing: the end flag stays unset and the stream open |
| `Reassembly.OutOfOrder` | src/reassembler.cc:28-76 | a later substring sent first is held back, then written together with the earlier one when that arrives |
| `Reassembly.InsertedAgrees` | src/reassembler.cc:28-76 | inserting a piece of a message `M` keeps the state agreeing with `M`: the written bytes are a prefix of `M` and every held byte is `M`'s byte at its index |
| `Reassembly.AcceptAgrees` | src/reassembler.cc:55-75 | accepting a clipped in-window piece of `M` keeps the agreement with `M` |
| `Reassembly.PlacedAgrees` | src/reassembler.cc:57-66 | placing a piece of `M` in the store keeps every held byte equal to `M`'s byte at its index |
| `Reassembly.DrainedAgrees` | src/reassembler.cc:68-72 | the bytes drained into the stream extend the written prefix of `M` |
| `Reassembly.AssemblingStep` | src/reassembler.cc:28-76 | inserting a piece of `M` keeps the state assembling `M`; every index of `M` that was written or held, or that the piece covers, ends up written or held |
| `Reassembly.EndFlagStep` | src/reassembler.cc:28-55 | once a piece of `M` has set the end flag, the last byte of `M` is held or all of `M` is written |
| `Reassembly.KeptStep` | src/reassembler.cc:44-72 | an index of `M` that was written or held, or that the inserted piece covers, is written or held afterwards |
| `Reassembly.AssemblingAll` | src/reassembler.cc:28-76 | inserting any sequence of pieces of `M` keeps the state assembling `M` and keeps every index of `M` some piece covers |
| `Reassembly.AllKept` | src/reassembler.cc:68-72 | a state assembling `M` that keeps every index of `M` has written exactly `M` and holds nothing |
| `Reassembly.Reassembles` | src/reassembler.cc:28-76 | pieces of `M` that cover every index of `M`, inserted in any order into a fresh reassembler with room for `M`, leave exactly `M` written and nothing held, and a stream whose end flag is set is closed |
| `Reassembly.InsertAllConcat` | src/reassembler.cc:28-76 | inserting two runs of substrings is inserting the first run, then the second |
| `Reassembly.ReassemblesThenCloses` | src/reassembler.cc:28-76 | pieces of `M` covering every index of `M`, in any order, followed by an empty last substring at index `|M|`, leave exactly `M` written, nothing held, and the stream closed |
| `Reassembly.Reassembler.ValidState` | src/reassembler.cc:61-66 | the class's store and counter satisfy the value-level invariant |
| `Reassembly.Reassembler.BytesPending` | src/reassembler.cc:78-81 | the number of held indices, zero iff nothing is held |
| `Reassembly.Reassembler.Split` | src/reassembler.cc:9-26 | the store holds the same bytes and size; the result is `lower_bound(pos)` and no entry straddles `pos` |
| `Reassembly.Reassembler.Insert` | src/reassembler.cc:28-76 | the new state is `Inserted` of the old state and the arguments |
| `Reassembly.Reassembler.AcceptClipped` | src/reassembler.cc:55-75 | for an in-window substring, the new state is `Accept` of the old one |
| `Reassembly.Reassembler.StoreAndDrain` | src/reassembler.cc:57-72 | the store ends up holding `Held` and the stream gets `Drained` appended |
| `Reassembly.Reassembler.PlaceEntry` | src/reassembler.cc:57-66 | the store gets the new entry's bytes on top of what it held, and the entry's position is returned |
| `Reassembly.Reassembler.EraseRange` | src/reassembler.cc:60-63 | the entries between the two positions are removed and the pending count follows |
| `Reassembly.Reassembler.DeliverFront` | src/reassembler.cc:69-71 | the front entry's bytes are pushed to an open stream and the entry is removed |
| `Reassembly.Reassembler.DrainReady` | src/reassembler.cc:68-72 | on an open stream, the contiguous entries from the write position are written and removed |
| `TCPReceiving.Window` | src/tcp_receiver.cc:34-36 | the advertised window is the free capacity, capped at 65535 |
| `TCPReceiving.StreamIndexNear` | src/tcp_receiver.cc:26-28 | a segment numbered within 2^31 of the expected index maps to its absolute index, less one unless it carries the SYN |
| `TCPReceiving.SynLandsAtZero` | src/tcp_receiver.cc:23-28 | the SYN segment's payload starts at stream index 0 |
| `TCPReceiving.ReceivedAfterError` | src/tcp_receiver.cc:11-13 | once the stream is in error, every segment is ignored |
| `TCPReceiving.ReceivedReset` | src/tcp_receiver.cc:14-17 | an RST segment on a stream not in error sets the error and changes nothing else: the zero point, the held bytes, the end flag, the written bytes, the popped count, the capacity and the closed flag stay as they were |
| `TCPReceiving.ZeroPointLatched` | src/tcp_receiver.cc:19-24 | the zero point is set by the first SYN and never changes afterwards |
| `TCPReceiving.ReceivedBeforeSyn` | src/tcp_receiver.cc:20-22 | a segment before the SYN is ignored |
| `TCPReceiving.ReceivedInv` | src/tcp_receiver.cc:9-30 | receiving keeps the reassembler's invariant |
| `TCPReceiving.ReceivedInOrder` | src/tcp_receiver.cc:26-29 | an in-order, in-window payload is written whole, and the stream closes iff the segment carries the FIN or the end was already known |
| `TCPReceiving.AcknoUnwraps` | src/tcp_receiver.cc:38-39 | the acknowledgment number unwraps to bytes pushed + 1, + 1 more once the stream is closed |
| `TCPReceiving.TCPReceiver.Receive` | src/tcp_receiver.cc:9-30 | the new state is `Received` of the old state and the segment |
| `TCPReceiving.TCPReceiver.Send` | src/tcp_receiver.cc:32-42 | the window is `Window` of the free capacity; the ackno exists iff the zero point does and unwraps to the next expected absolute index; RST reports the stream error |
| `TCPSending.SumLengthsConcat` | src/tcp_sender.cc:60 | the sequence numbers in flight add up over a concatenation of queues |
| `TCPSending.PayloadsConcat` | src/tcp_sender.cc:39-44 | the payloads of a concatenation of segments are the concatenated payloads |
| `TCPSending.SendWindow` | src/tcp_sender.cc:25 | a zero window is treated as one; any other window is used as is |
| `TCPSending.BackoffDoubles` | src/tcp_sender.cc:113-116 | after n backoffs without overflow the RTO is the initial RTO times 2^n |
| `TCPSending.SegmentsConcat` | src/tcp_sender.cc:59-61 | two runs of consecutively numbered segments, the second starting where the first ends, form one run |
| `TCPSending.SegmentsSyn` | src/tcp_sender.cc:31-34 | in a numbered run only the segment at absolute index 0 carries the SYN |
| `TCPSending.UnackedProps` | src/tcp_sender.cc:89-98 | retiring fully acknowledged segments advances the acked point by their lengths, never past the ackno; the new front is not fully acknowledged; the run stays consecutively numbered |
| `TCPSending.UnackedSuffix` | src/tcp_sender.cc:89-98 | what stays outstanding is a suffix of the queue |
| `TCPSending.BatchPayloads` | src/tcp_sender.cc:39-44 | the payloads of a pushed batch are a prefix of the stream's buffered bytes, in order |
| `TCPSending.BatchSegments` | src/tcp_sender.cc:30-61 | a pushed batch is consecutively numbered; every segment carries the stream's error flag and only the last may carry the FIN |
| `TCPSending.AfterAckInv` | src/tcp_sender.cc:70-104 | `receive` keeps the sender invariant, only retires a prefix of the outstanding queue, and never moves the acked point past the next sequence number |
| `TCPSending.RetiredInv` | src/tcp_sender.cc:88-103 | retiring up to a valid ackno keeps the invariant and only removes a prefix of the queue |
| `TCPSending.AckRetiresWholeSegments` | src/tcp_sender.cc:80-103 | the window is updated; an ackno beyond what was sent is ignored; only whole segments are retired; any retirement resets the backoff, reloads the RTO and runs the timer iff something is still outstanding; no retirement changes nothing else |
| `TCPSending.TickedInv` | src/tcp_sender.cc:106-119 | `tick` keeps the invariant and changes only the retransmission count, the RTO and the elapsed time |
| `TCPSending.TickBacksOff` | src/tcp_sender.cc:108-117 | on expiry with a non-zero window the count goes up by one and the RTO doubles; on expiry the elapsed time resets; a stopped timer does not age |
| `TCPSending.RetransmitsOldest` | src/tcp_sender.cc:108-112 | something is retransmitted iff the timer expired, and then exactly the oldest outstanding segment, numbered at the acked point |
| `TCPSending.CutExtend` | src/tcp_sender.cc:36-49 | a segment sized by the rule against the bytes after a batch cut by the size rule extends that batch |
| `TCPSending.CutUnique` | src/tcp_sender.cc:36-49 | two batches of equal length cut by the size rule from the same bytes at the same point are equal |
| `TCPSending.PushedCutExtend` | src/tcp_sender.cc:36-61 | one more segment sent under the size rule keeps the push record's batch cut by the size rule |
| `TCPSending.MadeToFit` | src/tcp_sender.cc:30-49 | a segment cut with the window's remaining room follows the size rule: payload as long as the payload limit, the room after the SYN and the buffered bytes allow, FIN exactly when room is left and the closed stream is emptied |
| `TCPSending.PushedUnique` | src/tcp_sender.cc:23-63 | two pushes from the same state that send the same number of segments send the same segments and leave the same queue, next sequence number and stream |
| `TCPSending.PushedFromExtend` | src/tcp_sender.cc:55-61 | sending one more segment extends a valid push record |
| `TCPSending.PushedSegments` | src/tcp_sender.cc:23-63 | the segments sent by `push` are consecutively numbered from the next sequence number, only the first may carry the SYN (when nothing was sent before), only the last the FIN, and their payloads are the stream's leading bytes, which are popped |
| `TCPSending.RetransmissionTimer.constructor` | src/tcp_sender.hh:17 | a new timer is stopped, at zero, with the initial RTO |
| `TCPSending.RetransmissionTimer.Reset` | src/tcp_sender.hh:21 | elapsed time becomes zero |
| `TCPSending.RetransmissionTimer.ExponentialBackoff` | src/tcp_sender.hh:22 | the RTO doubles modulo 2^64 |
| `TCPSending.RetransmissionTimer.Reload` | src/tcp_sender.hh:23 | the RTO becomes the given value and elapsed time zero |
| `TCPSending.RetransmissionTimer.Start` | src/tcp_sender.hh:24 | the timer runs from zero |
| `TCPSending.RetransmissionTimer.Stop` | src/tcp_sender.hh:25 | the timer is stopped at zero |
| `TCPSending.RetransmissionTimer.Tick` | src/tcp_sender.hh:26-30 | a running timer ages by the elapsed ms, modulo 2^64; a stopped one does not |
| `TCPSending.TCPSender.constructor` | src/tcp_sender.hh:42-44 | a new sender has sent nothing, has window 1, an idle timer at the initial RTO, and no retransmissions |
| `TCPSending.TCPSender.ValidInv` | src/tcp_sender.hh:72-87 | the fields satisfy the sender invariant: counters agree with the outstanding queue, which is consecutively numbered; the timer runs iff something is outstanding; the RTO reflects the backoffs |
| `TCPSending.TCPSender.SequenceNumbersInFlight` | src/tcp_sender.cc:13-16 | the sequence numbers in flight are next − acked, the total length of the outstanding segments |
| `TCPSending.TCPSender.ConsecutiveRetransmissions` | src/tcp_sender.cc:18-21 | the count is the number of backoffs the current RTO reflects |
| `TCPSending.TCPSender.MakeEmptyMessage` | src/tcp_sender.cc:65-68 | a segment occupying no sequence numbers, carrying the stream's error, whose seqno unwraps to the next absolute sequence number |
| `TCPSending.TCPSender.TakeChunk` | src/tcp_sender.cc:40-43 | a non-empty prefix of the buffered bytes, at most `want` long, is read and popped |
| `TCPSending.TCPSender.ReadPayload` | src/tcp_sender.cc:38-44 | min(len, buffered) leading bytes are read and popped |
| `TCPSending.TCPSender.MakeSegment` | src/tcp_sender.cc:30-49 | the next segment: numbered at the next sequence number, SYN iff none was sent, payload the leading bytes within the payload limit and the window, FIN iff room remains and the stream is finished; never longer than the window left |
| `TCPSending.TCPSender.Transmit` | src/tcp_sender.cc:55-61 | the segment joins the outstanding queue, the next sequence number advances by its length, and a stopped timer starts from zero |
| `TCPSending.TCPSender.PushOne` | src/tcp_sender.cc:30-61 | one round of the push loop: a segment of length zero leaves the state as it was and the sender stalled. Any other is sent as `SentOne` describes: numbered from the next sequence number, SYN iff nothing was sent, payload as long as `min(MAX_PAYLOAD, room - SYN)` and the buffered bytes allow, FIN iff room is left and the closed stream is emptied |
| `TCPSending.TCPSender.Push` | src/tcp_sender.cc:23-63 | the segments sent satisfy `PushedFrom` relative to the old state: back-to-back numbering, the stream's leading bytes, each segment sized by the loop body's rule (lines 36-49) against the window's remaining room, and the FIN exactly where that rule puts it. Afterwards the sender can send no more (window full, FIN sent, or nothing to send) |
| `TCPSending.TCPSender.RetireFront` | src/tcp_sender.cc:95-97 | the front segment leaves the queue and the acked point advances by its length |
| `TCPSending.TCPSender.Receive` | src/tcp_sender.cc:70-104 | the new state is `AfterAck` of the old state and the message |
| `TCPSending.TCPSender.RetireAcked` | src/tcp_sender.cc:88-103 | the new state is `Retired` of the old one |
| `TCPSending.TCPSender.RetireLoop` | src/tcp_sender.cc:89-98 | the outstanding queue becomes `Unacked`, the acked point `AckedUpTo`, and the flag says whether anything was retired |
| `TCPSending.TCPSender.Tick` | src/tcp_sender.cc:106-119 | the new state is `Ticked` of the old one and what is sent is `Retransmission` |
| `NetworkInterfaces.MakeArp` | src/network_interface.cc:17-28 | the message carries the interface's own addresses as sender and the given opcode and target |
| `NetworkInterfaces.DatagramFramesInOrder` | src/network_interface.cc:95-97 | flushing a queue produces one frame per datagram, in queue order |
| `NetworkInterfaces.SendProps` | src/network_interface.cc:49-63 | a cached next hop gets the datagram at once, unicast. Otherwise the datagram is queued after the others for that hop, and one broadcast ARP request for the hop goes out iff none was pending |
| `NetworkInterfaces.ForeignFrameIgnored` | src/network_interface.cc:68-70 | a frame addressed neither here nor to broadcast changes nothing and sends nothing |
| `NetworkInterfaces.FrameInv` | src/network_interface.cc:66-102 | `recv_frame` keeps the invariant and queues a datagram for the router iff the frame is addressed here, is IPv4 and parses, and then exactly that datagram |
| `NetworkInterfaces.ARPLearns` | src/network_interface.cc:86-100 | any ARP message teaches the sender's mapping with a fresh timer and ends the wait for it; other hops' queues are unchanged |
| `NetworkInterfaces.ARPAnswers` | src/network_interface.cc:90-100 | a reply goes out only to a request for this interface's address, first and unicast. Then the datagrams waiting for the sender leave in queue order, addressed to it |
| `NetworkInterfaces.TickEvictsExpired` | src/network_interface.cc:105-114 | exactly the expired cache entries and request timers are dropped; every queued datagram is kept |
| `NetworkInterfaces.NetworkInterface.constructor` | src/network_interface.cc:32-43 | a new interface has an empty cache, no queues and no timers, has received nothing and has sent nothing |
| `NetworkInterfaces.NetworkInterface.SendDatagram` | src/network_interface.cc:49-63 | the new state and the frames sent are those of `OnSend` |
| `NetworkInterfaces.NetworkInterface.FlushWaiting` | src/network_interface.cc:94-97 | every datagram waiting for the address is sent to the learned Ethernet address, in order |
| `NetworkInterfaces.NetworkInterface.RecvFrame` | src/network_interface.cc:66-102 | the new state and the frames sent are those of `OnFrame` |
| `NetworkInterfaces.NetworkInterface.Tick` | src/network_interface.cc:105-114 | the new state is `OnTick` of the old one |
| `Routing.Rotr` | src/router.cc:29 | `rotr(x, s)` on 32 bits: the low s bits of x become the high bits and the high 32−s bits become the low bits |
| `Routing.Probe` | src/router.cc:58-66 | the address probed for a prefix length is never above the destination |
| `Routing.ProbeIsShift` | src/router.cc:61 | probing slot `len` uses the destination shifted right by 32 − len bits |
| `Routing.KeyMatches` | src/router.cc:29 | a route's key equals the probe of a destination iff the prefix has no bits below its length and agrees with the destination on its top `len` bits |
| `Routing.LookupIsLongest` | src/router.cc:58-66 | no route found iff no slot holds a matching entry; otherwise the result is the entry in the longest matching slot |
| `Routing.LookupFromLongest` | src/router.cc:58-66 | the same for a scan of the slots below n |
| `Routing.LookupFromTargets` | src/router.cc:51-53 | a route found names one of the router's interfaces |
| `Routing.AddedRouteFound` | src/router.cc:20-30 | after adding a clean prefix that covers the destination, with no longer matching route, lookup returns the new route |
| `Routing.DirtyRouteInert` | src/router.cc:29 | a prefix with bits set below its length never matches: lookups are unchanged |
| `Routing.LookupSkips` | src/router.cc:58-66 | slots with no hit are passed over |
| `Routing.LookupFromUnchanged` | src/router.cc:58-66 | lookup depends only on the entries the destination probes |
| `Routing.ForwardProps` | src/router.cc:41-53 | a datagram is forwarded iff TTL > 1 and a route matches. Then it keeps its addresses and payload, its TTL drops by one, and it goes out on the route's interface toward the next hop, or toward its own destination on a direct route |
| `Routing.ForwardAllConcat` | src/router.cc:37-54 | forwarding a queue is forwarding its parts in order |
| `Routing.ForwardAllAtMostOnce` | src/router.cc:37-54 | each received datagram is forwarded at most once |
| `Routing.ForwardAllWithin` | src/router.cc:51-53 | every forwarding names an existing interface |
| `Routing.SendOne` | src/router.cc:51-53 | one forwarding changes no interface count |
| `Routing.Deliver` | src/router.cc:35-54 | delivering forwardings keeps the number of interfaces |
| `Routing.DeliverConcat` | src/router.cc:35-54 | delivering two batches in turn is delivering their concatenation |
| `Routing.DeliverKeepsReceived` | src/router.cc:51-53 | sending on an interface leaves every received queue and identity unchanged |
| `Routing.RouteDrainsAll` | src/router.cc:35-39 | after `route`, every interface's received queue is empty |
| `Routing.EmptyTable` | src/router.cc:58-66 | an empty table has a slot for every prefix length 0 to 32, all empty |
| `Routing.MatchAsWritten` | src/router.cc:58-66 | `match` as written, which shifts the address before probing each slot (see Findings) |
| `Routing.ShiftThenProbeIsLookup` | src/router.cc:60-61 | the as-written scan of n ≤ 32 slots, started from the destination shifted by 32 − n bits, is the longest-prefix lookup over them |
| `Routing.AsWrittenWith32Slots` | src/router.cc:58-66 | with 32 slots the as-written `match` is a correct lookup of lengths 0 to 31 |
| `Routing.ShiftThenProbeEmpty` | src/router.cc:58-66 | the as-written scan of empty slots finds nothing |
| `Routing.HostRouteMissed` | src/router.cc:20-30 | a /32 host route for a non-zero address is not found by the as-written `match` but is found by the longest-prefix lookup |
| `Routing.Router.AddRoute` | src/router.cc:20-30 | the table gains the route under its length and key and nothing else changes |
| `Routing.Router.Match` | src/router.cc:58-66 | the result is the longest-prefix `Lookup` (each slot is probed before the address is shifted) |
| `Routing.Router.Route` | src/router.cc:33-56 | the forwardings are `RouteAll` of every interface's received queue in interface order. Each names an existing interface, and the interfaces end as if every queue were drained and the forwardings sent in order. The route for each datagram comes from the corrected lookup `Routing.Lookup` (see "## Findings"), not the as-written `match` |
| `Routing.Router.DrainInterface` | src/router.cc:37-54 | one interface's queue is forwarded in order and emptied, and the forwardings are delivered |
| `Routing.Router.ForwardOne` | src/router.cc:41-53 | the datagram's forwarding is `Forward`; if there is one it is sent, else nothing changes; received queues stay as they were |
| `Routing.Router.PopReceived` | src/router.cc:38-39 | the front datagram of the queue is taken off it |
| `Routing.Router.SendOn` | src/router.cc:51-53 | the chosen interface sends the datagram toward the next hop; received queues stay as they were |

## Left out

- Integer widths: stream counters and sequence-number bookkeeping are unbounded `nat`. They are reduced modulo 2^64 (and sequence numbers modulo 2^32) only where the source's arithmetic feeds a wrapped value. A stream longer than 2^64 bytes is not modelled.
- Wire codecs: `serialize` and `parse` of Ethernet, IPv4 and ARP are abstracted as `NetworkFrames.Wire`, with parse returning `Option`. Byte layouts are not modelled. Parsing a serialization gives back its value by construction of `Wire`, so the codecs' round trip is not stated as a property of the model.
- IPv4 checksum: recomputation after the TTL decrement (`src/router.cc:45`) is not modelled; the header model has no checksum field.
- Callbacks: `transmit` and the output port are modelled as returned sequences or appended logs. The callback's own side effects are not.
- Timer expiry: `NetworkInterface::Timer` and the ARP TTL constants live in headers that are not part of this model. The interface takes the TTLs and an `expired` predicate as parameters.
- Constants: `TCPConfig::MAX_PAYLOAD_SIZE`, the initial RTO and the ARP TTLs are parameters. `Wrap32::BASE`/`MASK_HIGH_32` are fixed at 2^32 and the high 32 bits of a 64-bit word.
- Debug output: the `cerr` output of the interface constructor and `add_route` is left out.
- Address conversions: `Address` values are the 32-bit numbers they convert to.
- The `webget` application is not part of this model.
- `string_view` aliasing between `stream_` and `stream_view_` in ByteStream is modelled as one queue of unread chunks.
- Router interfaces: `add_interface` is not modelled; `Routing.Router.constructor` takes the interfaces.
- Constructors in headers: the `Reassembler`, `TCPReceiver` and `Router` constructors are declared in reassembler.hh, tcp_receiver.hh and router.hh, which are not part of this model. `Reassembly.Reassembler.constructor` starts with nothing held and no end flag, `TCPReceiving.TCPReceiver.constructor` starts with no zero point over the given reassembler, and `Routing.Router.constructor` starts with an empty table.
- Router table size: the declared size of the table is in `router.hh`, which is not part of this model. The class uses 33 slots, one per prefix length 0 to 32.
- `Routing.Router.AddRoute`: requires `prefixLength <= 32` and an existing interface index; the source indexes past the table or the interface vector otherwise.
- `TCPSending.TCPSender.constructor`: requires a stream not yet read from and a positive maximum payload, so that the sender's sequence-number accounting starts at zero.
- `ByteStreams.ByteStream.SetError`: `set_error` and `has_error` are declared in a header that is not part of this model. They are modelled as setting and reading one flag.

## Findings

| source | as written | input that shows it | evidently intended | confidence | as-written member | corrected member |
|---|---|---|---|---|---|---|
| src/router.cc:58-66 | `match` shifts the address (`addr >>= 1`) before probing each slot. So slot `l` is probed with the destination shifted by one bit more than `add_route`'s key for length `l`, and with a slot per length 0 to 32 a /32 route is never found. With only 32 slots, `add_route` for a /32 route would index past the table. | route `h/32` (h ≠ 0) on an empty table, datagram to `h` | probe each slot first, then shift, so every length 0 to 32 is matched | not executed; the table's declared size is in router.hh, which is not part of this model | `Routing.MatchAsWritten`, `Routing.HostRouteMissed` | `Routing.Router.Match` (with `Routing.Lookup`, `Routing.LookupIsLongest`) |
