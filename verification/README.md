# A verified model of a user-space TCP/IP stack

The project models a small TCP/IP stack built from state machines: a bounded byte stream, a reassembler, 32-bit
sequence numbers, a TCP sender, receiver and peer, the wire formats of IPv4 and TCP with the Internet checksum, a
network interface with ARP, and a longest-prefix-match router. It proves what each keeps over whole runs, and what
one sender, one receiver and an unreliable network achieve together.

Every stateful component comes as a pair. A `...Model` module says on values what each operation computes, branch by
branch as in the program; an object module holds the class with the program's fields and loops, and each of its
methods is proved equal to the model (`View() == Model.Op(old(View()), ...)`). The `...Theory` modules then prove
properties of the model over every input, run or reachable state. The modules are:

- `StreamModel`, `ByteStreams`: a string compacted in place, seen as an unbounded history with a buffered suffix.
- `ReassemblerModel`, `Reassemblers`, `ReassemblerTheory`: refinement of a set of known positions, confluence.
- `Wrapping`: sequence numbers. `Messages`, `ReceiverModel`, `Receivers`, `ReceiverTheory`: the TCP receiver.
- `SenderModel`, `Senders`, `SenderTheory`, `Rewinding`, `Retransmission`, `Expiry`: the TCP sender, its invariants, backoff,
  and when it retransmits.
- `Connection`, `ConnectionTheory`, `ConnectionRuns`, `UnsafeRuns`, `EarlyData`, `AckOrder`: a network that loses,
  duplicates and reorders; safety and why its assumptions are there, what an acknowledgment is worth, and progress.
- `Duplex`, `DuplexWire`: two full peers, each direction being such a connection, exchanging messages or bytes.
- `PeerModel`, `Peers`, `PeerTheory`, `PeerProjection`, `PeerRuns`: when a peer answers and when it is active, and that it is
  its sender and its receiver run side by side.
- `Bytes`, `Checksum`, `Parsing`, `IPv4Model`, `IPv4`, `SegmentModel`, `TcpSegments`, `TcpOverIpModel`, `TcpOverIp`:
  wire formats over chunked buffers. `HeaderAcceptance`, `Damage`: which headers are accepted, and what becomes of damaged
  and foreign datagrams.
- `Frames`, `InterfaceModel`, `Interfaces`, `InterfaceTheory`, `InterfaceLedger`: the link layer, and its refinement of a ledger
  in which nothing expires. `RouterModel`, `Routers`, `RouterTheory`, `RouterPorts`: forwarding.

## Where the program departs from what it promises

The model follows the code. For each departure there is a concrete run and the exact condition under which it occurs:

- A pop past the end empties the buffer but is not counted (`StreamModel.PopPastEnd`; exact condition in
  `PopCounters`).
- A pop of nearly 2^64 bytes overflows its test and brings removed bytes back (`StreamModel.PopBringsBack`; exact
  condition in `FifoStepIff`).
- A segment clipped at the capacity is later pushed whole. That corrupts the stream if the reader has popped in between
  (`ReassemblerTheory.ClippedStored`, `ClippedThenPopped`), unless another stored segment reaches across its beginning
  (`ClippedButCovered`; exact condition in `PopSafeIff`).
- The early return for a substring already written out skips the close (`ReassemblerTheory.CloseSkipped`; exact
  condition in `ClosedWhenCompleteKept`).
- The receiver counts FIN whenever nothing is pending, even across a gap, and the sender then forgets a byte that never
  arrived (`ConnectionRuns.FinLosesByte`; exact condition in `ConnectionTheory.ReplyHonestIff`).
- The acknowledgment number goes back when SYN comes again and resets the FIN flag, or when bytes are stored after FIN was
  counted (`AckOrder.SynLowersAck`; exact condition in `AckGoesBackIff`).
- A message without acknowledgment number sends the sender back to the start. Later segments then carry the wrong bytes
  (`Rewinding.RewindLosesBytes`; exact condition in `RewindHarmlessIff`), and the output need not be a prefix of what was
  written (`UnsafeRuns.RewindIsUnsafe`). Bytes sent but not acknowledged are dropped, even after FIN
  (`Rewinding.RewindAfterFinLosesByte`; exact condition in `RewindLosesIff`).
- Data that overtakes SYN is put at an index counted from zero, and the output need not be a prefix of what was written
  (`UnsafeRuns.OvertakingIsUnsafe`; exact conditions in `EarlyData.EarlyIndexRightIff` and `EarlyDataIff`).
- `unwrap` goes through a signed 64-bit number and misses the nearest value from 2^63 on
  (`Wrapping.UnwrapMissesNearest`; exact condition in `UnwrapNearest`).
- The doubled timeout overflows 64 bits (`Retransmission.TimeoutOverflows`; `RunBackedOff` says when it is exact).
- An application's push revives an inactive peer that has not sent FIN (`PeerRuns.PushRevives`; exact condition in
  `PeerTheory.InactiveForGoodIff`).
- A checksum field of all ones verifies but is refused in an IPv4 header (`HeaderAcceptance.AllOnesRefused`; exact condition in
  `AcceptableIff`), and a change of the reserved bit of its fragment word alone is not noticed, since the checksum is
  recomputed from the fields that were read (`Damage.ReservedBitUnread`; exact condition in `DamageDetected`).
- The IPv4 header checksum is checked over the twenty fixed bytes even if options follow, so that a header with options and
  the standard's checksum can be refused (`HeaderAcceptance.OptionsRefused`; exact condition in `StandardChecksumIff`).
- With host bits set in a prefix the order of routes can matter (`RouterTheory.HostBitsMatter`; exact condition in
  `OrderIrrelevantIff`).

## Model

| member | source | states |
|---|---|---|
| ByteStreams.ByteStream.Push | src/byte_stream.cc:20-44 | accepts exactly the longest prefix that fits, through compaction, and nothing once closed |
| ByteStreams.ByteStream.Compact | src/byte_stream.cc:27-33 | moving the buffered bytes to the front changes nothing visible |
| ByteStreams.ByteStream.Pop | src/byte_stream.cc:84-95 | for every 64-bit length: removes the first bytes and counts them; past the end empties the buffer uncounted; on overflow brings removed bytes back |
| ByteStreams.ByteStream.Peek | src/byte_stream.cc:77-81 | shows all buffered bytes |
| ByteStreams.Read | src/byte_stream_helpers.cc:10-25 | takes exactly the first min(len, buffered) bytes |
| StreamModel.Fifo | src/byte_stream.cc:20-101 | over any run in which no pop overflows, what was buffered plus what was accepted is what was taken plus what is buffered |
| StreamModel.FifoStepIff | src/byte_stream.cc:87-89 | one operation of any kind is first in, first out iff it is not a pop whose sum overflows 64 bits |
| StreamModel.PopBringsBack | src/byte_stream.cc:87-89 | popping one byte and then 2^64 - 1 puts the byte back into the buffer |
| StreamModel.RunCounters | src/byte_stream.cc:53-101 | over runs of legal pops pushed = popped + buffered, buffered + available = capacity, and popped counts the bytes taken |
| StreamModel.PopCounters | src/byte_stream.cc:84-95 | a pop of any length keeps the counters in agreement iff it is legal, finds an empty buffer, or overflows |
| StreamModel.PopPastEnd | src/byte_stream.cc:91-94 | popping two bytes from a stream that holds one leaves the counters in disagreement |
| Reassemblers.Reassembler.Insert | src/reassembler.cc:5-92 | the case split, the drain loop and the close compute the model's insert |
| Reassemblers.Reassembler.DrainLoop | src/reassembler.cc:61-87 | the erase loop computes the model's drain |
| Reassemblers.Reassembler.BytesPending | src/reassembler.cc:94-124 | the sweep counts the union of all stored intervals, overlaps and nesting included |
| ReassemblerModel.EmplaceOrdered | src/reassembler.hh:77-86 | set insertion keeps the order by begin, then by larger end |
| ReassemblerTheory.InsertRefines | src/reassembler.cc:5-92 | a truthful insert adds to the known positions exactly those for which there is room, and keeps the output equal to the stream up to next |
| ReassemblerTheory.FirstGap | src/reassembler.cc:94-124 | next is the first unknown position, and the pending count is the number of known positions beyond it |
| ReassemblerTheory.RunSimulatesNew | src/reassembler.cc:5-92 | from a new object on, over runs of truthful inserts and allowed pops it simulates a set of known positions and a removed count |
| ReassemblerTheory.Confluence | src/reassembler.cc:9-87 | next, output and pending count depend only on the union of the inserted intervals cut at the capacity |
| ReassemblerTheory.OrderIrrelevant | src/reassembler.cc:9-87 | any permutation or repetition of the same substrings gives the same result |
| ReassemblerTheory.PopSafeIff | src/reassembler.cc:78-79 | after any allowed run, every allowed continuation of a pop keeps the output equal to the stream up to next, iff no clipped segment lies uncovered |
| ReassemblerTheory.UncoveredCorrupts | src/reassembler.cc:78-79 | otherwise the truthful substring from next up to that segment makes the output longer than next |
| ReassemblerTheory.ClippedButCovered | src/reassembler.cc:81-81 | a concrete truthful run that stores a clipped segment and may still be popped |
| ReassemblerTheory.ClippedStored | src/reassembler.cc:52-53 | a concrete truthful run that stores a clipped segment |
| ReassemblerTheory.ClippedThenPopped | src/reassembler.cc:78-79 | continued with pops it writes one byte of the stream twice |
| ReassemblerTheory.ClosedWhenCompleteKept | src/reassembler.cc:17-22 | the stream is closed when complete, except iff its end is first announced by a substring already written out |
| ReassemblerTheory.CloseSkipped | src/reassembler.cc:20-22 | a concrete run that ends complete and not closed |
| Wrapping.WrapUnwrap | src/wrapping_integers.cc:5-21 | whatever the checkpoint, the unwrapped number wraps back to the one given |
| Wrapping.UnwrapNearest | src/wrapping_integers.cc:15-21 | no number with the same image is nearer to the checkpoint, iff checkpoint plus step stays below 2^63 or in one tie |
| Wrapping.UnwrapMissesNearest | src/wrapping_integers.cc:19-21 | at checkpoint 2^63 the number zero is unwrapped to one a whole circle away although the checkpoint is an image of it |
| Wrapping.UnwrapWrap | src/wrapping_integers.cc:5-21 | unwrap inverts wrap iff the number is within half a circle of the checkpoint, or in the first circle and further above |
| Receivers.TCPReceiver.Receive | src/tcp_receiver.cc:5-34 | sequence number to stream index, SYN, FIN and RST handling as in the model |
| Receivers.TCPReceiver.Send | src/tcp_receiver.cc:36-58 | acknowledgment, window and RST of the model, by the pending sweep |
| ReceiverTheory.ReplyIs | src/tcp_receiver.cc:5-58 | over any run of a new receiver: a reset is announced iff one has come, the acknowledgment counts from the latest SYN and is the first missing byte, one more iff FIN has come since and nothing is stored, and the window is all the room or 65535 |
| Senders.RetransmissionTimer.Grow | src/tcp_sender.hh:53-66 | elapsed time, expiry, and expiry on overflow |
| Senders.TCPSender.Push | src/tcp_sender.cc:18-93 | the window-filling loop computes the model's push, messages in order |
| Senders.TCPSender.TakeSegment | src/tcp_sender.cc:45-82 | one segment: SYN, payload and FIN as the room and the input allow |
| Senders.TCPSender.Receive | src/tcp_sender.cc:103-160 | acknowledgment, window, erasing and timer as in the model |
| Senders.TCPSender.Tick | src/tcp_sender.cc:162-200 | expiry, retransmission and backoff as in the model |
| SenderTheory.RunStructured | src/tcp_sender.cc:84-90 | over every run of a new sender the outstanding segments tile up to the first unsent number, the first contains the first unacknowledged one, and the timer runs iff there is one |
| SenderTheory.TickRetransmits | src/tcp_sender.cc:177-188 | an expiry always finds an outstanding segment and resends the one with the first unacknowledged number |
| SenderTheory.RunConserved | src/tcp_sender.cc:33-92 | every segment ever transmitted, logged with the absolute number it is sent under, carries the slice that number stands for, FIN only at the end of a closed input; the first unsent number counts SYN, the bytes taken and FIN |
| Rewinding.RewindHarmlessIff | src/tcp_sender.cc:113-118 | after a message without acknowledgment number every later segment carries its slice however the run goes on, iff no byte or else FIN had been sent |
| Rewinding.SlippedSendsWrong | src/tcp_sender.cc:64-71 | otherwise acknowledging and pushing until FIN puts FIN at a number that is not the end of the stream |
| SenderTheory.MuteStays | src/tcp_sender.cc:131-131 | sent back to the start after FIN, the sender takes FIN for acknowledged and never transmits again |
| Rewinding.RewindLosesBytes | src/tcp_sender.cc:113-118 | a concrete run in which the second byte travels with SYN |
| Rewinding.RewindLosesIff | src/tcp_sender.cc:113-118 | nothing is lost before, and a message without acknowledgment number loses no byte iff every byte sent has been acknowledged |
| Rewinding.RewindAfterFinLosesByte | src/tcp_sender.cc:113-118 | a concrete run in which a byte sent with FIN is dropped and nothing is ever transmitted again |
| SenderTheory.PushMaximal | src/tcp_sender.cc:18-93 | push sends non-empty segments, all but the last with 1000 bytes and none with more, nothing at or past the window, and all it can |
| SenderTheory.AckSetsEdge | src/tcp_sender.cc:125-142 | an acknowledgment that is not impossible moves the right edge of the window to its own, unless that is acknowledged already |
| Expiry.TickRetransmitsIff | src/tcp_sender.cc:162-200 | after any run of a new sender a tick sends the first outstanding segment, and nothing else, iff one is outstanding and the ticks since the wait began add up to the initial timeout times 2 to the backoffs since new data was acknowledged |
| Retransmission.RunBackedOff | src/tcp_sender.cc:190-199 | over every run of a new sender the timeout is initial times 2 to the consecutive retransmissions, exactly iff that fits 64 bits, and a running timer is armed with it |
| Retransmission.TimeoutOverflows | src/tcp_sender.cc:197-197 | a concrete run in which the doubled timeout is zero |
| Retransmission.ExpiryCounts | src/tcp_sender.cc:190-199 | an expiry counts and doubles iff the window is not zero, and rearms the timer |
| Retransmission.BackoffTakesTime | src/tcp_sender.cc:138-200 | k consecutive retransmissions take at least initial * (2^k - 1) ms of ticks, absent overflow |
| ConnectionTheory.NextInv | src/tcp_sender.cc:18-160 | every step of the system keeps the invariant; in particular no stored segment is ever clipped |
| ConnectionTheory.Safety | src/reassembler.cc:5-92 | in every reachable state the output is a prefix of what was written, and closed only when it is all of it |
| ConnectionTheory.AcknowledgedIsDelivered | src/tcp_sender.cc:119-151 | as long as replies are honest every acknowledged byte is in the output, and if FIN is acknowledged the output is the whole closed input |
| ConnectionTheory.RightEdgeStays | src/tcp_receiver.cc:54-55 | no step moves the advertised right edge to the left |
| ConnectionTheory.ReplySetsWindow | src/tcp_receiver.cc:54-55 | once a reply has arrived the right edge of the sender's window is the acknowledged number plus all the room the receiver has, at most 65535 |
| ConnectionTheory.AcknowledgesOnlySent | src/tcp_receiver.cc:43-51 | the receiver never acknowledges a number that was never sent |
| ConnectionTheory.ReplyHonestIff | src/tcp_receiver.cc:43-51 | from any reachable state with honest replies, one more reply delivered leaves every acknowledged byte delivered, iff the receiver does not count FIN before its end, or the sender is back at the start |
| ConnectionTheory.ReplyErases | src/tcp_sender.cc:143-150 | otherwise the reply makes the sender forget an outstanding segment whose last byte is not delivered |
| ConnectionRuns.FinLosesByte | src/tcp_receiver.cc:46-50 | a concrete run of the whole system: the byte is lost, FIN arrives, the reply is delivered, and the sender no longer keeps the byte |
| EarlyData.EarlyIndexRightIff | src/tcp_receiver.cc:32-33 | before SYN a number is put at its own index iff the sender starts at zero and earlier such segments left the checkpoint within half a circle |
| EarlyData.EarlyDataIff | src/tcp_receiver.cc:32-33 | early data keeps the output true for every stream and all that may follow, iff its index is right or it is dropped |
| UnsafeRuns.RewindIsUnsafe | src/tcp_sender.cc:113-118 | a run of the whole system that breaks only the first assumption of safety, and ends with a wrong output |
| UnsafeRuns.OvertakingIsUnsafe | src/tcp_receiver.cc:32-33 | a run of the whole system that breaks only the second assumption of safety, and ends with a wrong output |
| AckOrder.AckGoesBackIff | src/tcp_receiver.cc:17-24 | a step lowers the acknowledgment number iff FIN was counted and SYN comes again without FIN and new bytes, or bytes are stored beyond the first missing one |
| AckOrder.SynLowersAck | src/tcp_receiver.cc:17-24 | a concrete run in which a repeated SYN takes FIN back |
| ConnectionTheory.RoundAcknowledges | src/tcp_sender.cc:188-188 | one round trip of the first outstanding segment acknowledges all of it iff there is room for it, or it is there already, or FIN is counted in place of its last byte |
| Duplex.PairSafety | util/tcp_peer.hh:50-83 | two full peers: both outputs are prefixes of what was written at the other end in every reachable state, SYN with data included, and honest acknowledgments are of delivered bytes |
| Duplex.IncomingIs | util/tcp_peer.hh:73-82 | what a peer does with a message is one delivery in each direction, a push, and a reply if still owed |
| Duplex.PairCloses | util/tcp_peer.hh:39-48 | in every reachable state of two peers, an inactive one has all the other end wrote, closed; its own stream is closed, and all of it is at the other end if its acknowledgments were honest and its sender is not back at the start |
| DuplexWire.WireSafety | util/tcp_over_ip.cc:26-96 | the same when the peers exchange the bytes of datagrams, and bytes in which no message is found may arrive too |
| Peers.TCPPeer.IsActive | util/tcp_peer.hh:39-48 | errors, both streams and lingering decide activity as in the model |
| Peers.TCPPeer.Receive | util/tcp_peer.hh:50-83 | bookkeeping, receiver, sender, push and reply in that order |
| Peers.TCPPeer.Tick | util/tcp_peer.hh:31-35 | time passes and retransmissions travel with the present acknowledgment |
| PeerTheory.InactivityIsFinal | util/tcp_peer.hh:31-55 | after any history of a new peer: once inactive it stays inactive and, without a stream error, silent, whatever happens but a push of a FIN not yet sent |
| PeerTheory.InactiveForGoodIff | util/tcp_peer.hh:39-48 | an inactive peer stays inactive whatever happens, application included, iff it has a stream error or FIN has been sent |
| PeerRuns.PushRevives | util/tcp_peer.hh:30-48 | a concrete run in which a push makes an inactive peer active |
| PeerTheory.ActOk | util/tcp_peer.hh:30-83 | everything that happens at a peer keeps the structure of its sender, and FIN acknowledged only if sent |
| PeerTheory.AnswersIff | util/tcp_peer.hh:59-82 | over any run of a new peer: an active peer answers with what its sender pushes, or, if that is nothing, with one empty segment under the first unsent number iff the message holds SYN, FIN or data or has the number just below the acknowledgment; all of it carries the new acknowledgment |
| PeerTheory.ActiveIff | util/tcp_peer.hh:39-70 | over any run of a new peer: it is active iff neither stream has an error and something is outstanding, a stream is not over, or it was heard or made less than ten timeouts ago and never saw the inbound stream end first |
| PeerProjection.PeerIsBoth | util/tcp_peer.hh:26-83 | over any run of a new peer: sender and receiver are those of their own runs, and the segments transmitted that use sequence numbers are exactly the sender's, in order |
| PeerProjection.ActProjects | util/tcp_peer.hh:26-83 | one action of a peer is its sender's and its receiver's steps, and every message carries the acknowledgment as it stands after it |
| PeerProjection.PeerRetransmitsIff | util/tcp_peer.hh:31-35 | time passing makes a peer transmit the first outstanding segment, with the present acknowledgment, iff the ticks add up to the backed-off timeout |
| PeerTheory.LingersExactly | util/tcp_peer.hh:44-47 | a peer that is done stays active iff it lingers and ten initial timeouts have not passed |
| PeerTheory.PassiveCloser | util/tcp_peer.hh:67-70 | a peer whose inbound stream ended first does not linger |
| PeerTheory.ResetEnds | util/tcp_peer.hh:39-82 | a reset in either half makes the peer inactive, all it still says carries a reset, and nothing else is taken in with it |
| Checksum.InternetChecksum.Add | util/checksum.hh:16-26 | adds the words of the data, with parity, in 32 bits |
| Checksum.InternetChecksum.Value | util/checksum.hh:28-37 | the fold loop computes the complement of the folded sum |
| Checksum.SumSplits | util/checksum.hh:16-26 | the sum does not depend on how the data is split |
| Checksum.FoldIs | util/checksum.hh:32-34 | folding computes the remainder modulo 65535, as 1 to 65535 except for zero |
| Checksum.ChecksumVerifies | util/checksum.hh:28-37 | data summed with its own checksum verifies |
| Checksum.CorruptionDetected | util/checksum.hh:16-37 | changing any single byte of data that verifies is detected |
| Parsing.BufferList.RemovePrefix | util/parser.hh:43-55 | drops exactly the first bytes of what remains, across chunks |
| Parsing.BufferList.DumpAll | util/parser.hh:57-72 | hands over exactly what remains |
| Parsing.Parser.Integer | util/parser.hh:131-150 | reads a big-endian integer, or flags an error and reads nothing |
| Parsing.Serializer.Integer | util/parser.hh:182-190 | appends a big-endian integer |
| Parsing.Serializer.Output | util/parser.hh:207-219 | hands over everything written, in chunks none of which is empty |
| Bytes.BytesRoundTrip | util/parser.hh:131-190 | an integer that fits is read back as it was written |
| IPv4.Parse | util/ipv4_header.cc:12-54 | errs iff the bytes are not an acceptable header, else spells it and leaves what follows the options |
| IPv4.Serialize | util/ipv4_header.cc:57-80 | writes the twenty bytes, or refuses a version other than 4 |
| IPv4.ComputeChecksum | util/ipv4_header.cc:107-117 | sets the checksum over the header with a zero field |
| IPv4Model.HeaderRoundTrip | util/ipv4_header.cc:12-80 | a well-formed header is read back as it was written |
| IPv4Model.HeaderWords | util/ipv4_header.cc:57-80 | the header is the five 32-bit words of the standard |
| IPv4Model.OptionsSkipped | util/ipv4_header.cc:38-53 | a header with any options is accepted with its own checksum, the payload is what follows them, and the payload length counted is its length |
| HeaderAcceptance.AcceptableIff | util/ipv4_header.cc:31-53 | a header is accepted iff its first byte says version 4 and five words or more, and its twenty bytes, the reserved bit aside, verify and do not hold a checksum of all ones |
| HeaderAcceptance.StandardChecksumIff | util/ipv4_header.cc:46-53 | a header that verifies by the standard, options included, is accepted iff the options alone sum to nothing |
| HeaderAcceptance.OptionsRefused | util/ipv4_header.cc:107-117 | a concrete header with four no-operations and the standard's checksum is refused |
| HeaderAcceptance.AllOnesRefused | util/ipv4_header.cc:48-53 | a concrete header that verifies and is refused |
| Damage.ReservedBitUnread | util/ipv4_header.cc:20-24 | with the reserved bit changed a header is read as before |
| IPv4Model.HeaderVerifies | util/ipv4_header.cc:107-117 | summed over the whole header, its own checksum verifies |
| IPv4Model.PseudoIsHeaderSum | util/ipv4_header.cc:98-105 | the number computed is the word sum of the pseudo-header |
| TcpSegments.Parse | util/tcp_segment.cc:11-57 | errs iff the bytes are not an acceptable segment, else spells it, however chunked |
| TcpSegments.Serialize | util/tcp_segment.cc:65-80 | writes the fixed header and the payload |
| TcpSegments.ComputeChecksum | util/tcp_segment.cc:82-91 | sets the checksum over pseudo-header sum and segment with a zero field |
| SegmentModel.SegmentRoundTrip | util/tcp_segment.cc:21-80 | a segment is read back as it was written, up to the shared RST flag |
| SegmentModel.SegmentWords | util/tcp_segment.cc:65-80 | a segment is the five 32-bit words of the standard and the payload |
| SegmentModel.OptionsSkipped | util/tcp_segment.cc:50-56 | a segment with any options is accepted with its own checksum and decodes to the same message with exactly its own payload |
| SegmentModel.PayloadStartsAtOffset | util/tcp_segment.cc:50-56 | a data offset below five is rejected; otherwise the payload is what follows the offset, and nothing if it lies beyond the end |
| SegmentModel.OwnChecksumAccepted | util/tcp_segment.cc:14-19 | a segment with its own checksum is accepted |
| SegmentModel.CorruptSegmentRejected | util/tcp_segment.cc:14-19 | an accepted segment with any single byte changed is rejected |
| TcpOverIp.TCPOverIPv4Adapter.WrapTcpInIp | util/tcp_over_ip.cc:77-96 | the header and segment of the model, in chunks none of which is empty |
| TcpOverIp.TCPOverIPv4Adapter.UnwrapTcpInIp | util/tcp_over_ip.cc:26-73 | filtering and listening as in the model, depending on the bytes and not on the chunks |
| TcpOverIp.ParseDatagram | util/ipv4_datagram.hh:16-20 | header, then everything that follows as payload |
| TcpOverIp.SerializeDatagram | util/ipv4_datagram.hh:22-28 | header, then the payload chunks |
| TcpOverIpModel.DatagramDescribesItself | util/tcp_over_ip.cc:77-96 | the length field is the number of bytes of the datagram, the pseudo-header summed holds the length of the TCP segment, and both checksums verify |
| TcpOverIpModel.RoundTrip | util/tcp_over_ip.cc:26-96 | what one end wraps the mirrored end unwraps to the same message, up to the shared RST flag |
| TcpOverIpModel.ListenerBecomesMirror | util/tcp_over_ip.cc:56-65 | a listening end becomes the mirror image of the sender of the first SYN for its port, and ignores anything else |
| TcpOverIpModel.OthersIgnored | util/tcp_over_ip.cc:30-70 | a connected end takes nothing from any other connection |
| Damage.DamageDetected | util/tcp_over_ip.cc:26-73 | with any single byte of a datagram changed the other end finds no message in it, except iff only the reserved bit changed, and then the very message |
| Damage.OtherProtocolsIgnored | util/tcp_over_ip.cc:40-43 | a datagram of another protocol is ignored by any end |
| Interfaces.NetworkInterface.SendDatagram | src/network_interface.cc:28-61 | sends at once, or queues and asks at most once |
| Interfaces.NetworkInterface.RecvFrame | src/network_interface.cc:64-101 | datagrams up, mappings learned, queues flushed, requests answered |
| Interfaces.NetworkInterface.Flush | src/network_interface.cc:198-224 | the erase loops send what is queued for one address, in order, and keep the rest |
| Interfaces.NetworkInterface.Tick | src/network_interface.cc:104-125 | the erase loops age and expire entries and requests |
| InterfaceTheory.RunConserves | src/network_interface.cc:28-61 | over any run of a new interface, what was given per next hop is what was transmitted followed by what still waits, in order |
| InterfaceTheory.RunTimely | src/network_interface.cc:104-125 | over any run of a new interface, a datagram leaves at once iff an address was learned less than 30 s ago, a request goes out iff none was sent in the last 5 s, and frames use fresh addresses |
| InterfaceTheory.RunReceives | src/network_interface.cc:64-80 | over any run of a new interface, what is passed up is exactly the datagrams in IPv4 frames for it or for everyone, in order |
| InterfaceLedger.RunRefinesLedger | src/network_interface.cc:28-224 | over any run of a new interface, the aging tables refine a ledger of what was heard and asked, and when: the same frames field by field and in order (datagrams, requests, answers), the same datagrams up, and the table is what was heard less than 30 s ago |
| InterfaceTheory.Resolution | src/network_interface.cc:83-100 | request, answer and release between two interfaces deliver exactly the queued datagrams, in order, to the neighbour |
| Routers.Router.AddRoute | src/router.cc:14-34 | replaces the route with the same prefix and length, or appends |
| Routers.Router.Best | src/router.cc:66-75 | the scan computes the model's choice |
| Routers.Router.Route | src/router.cc:49-82 | routes every queue of every interface as in the model, in order, and does right at every port |
| RouterTheory.MatchIsLeadingBits | src/router.cc:36-46 | a prefix matches iff its leading bits are those of the address |
| RouterTheory.SelectLongest | src/router.cc:66-75 | a route is chosen iff one matches, and no matching route is longer |
| RouterPorts.RouteIsRight | src/router.cc:49-82 | after a pass every port's inbound queue is empty, it has gone through exactly the sends of the forwardable datagrams whose route names it, in order, and the frames on its wire are those of these sends and no others |
| RouterPorts.SelectFirst | src/router.cc:66-75 | the route chosen is the first of the longest matching ones |
| RouterTheory.RouteHandsRight | src/router.cc:49-82 | exactly the forwardable datagrams are handed over, once, in order, with the time to live reduced, by a longest match; what that does at each port is RouteIsRight |
| RouterTheory.AddRouteElements | src/router.cc:24-33 | one route per prefix and length, the newest |
| RouterTheory.OrderIrrelevantIff | src/router.cc:24-75 | the choice is the same for every order in which routes with distinct keys are added, iff at most one of them is longest |
| RouterTheory.AddOrderIrrelevant | src/router.cc:14-75 | with host bits zero, routes with distinct keys may be added in any order |
| RouterTheory.HostBitsMatter | src/router.cc:66-75 | with host bits set, two orders give two choices |

## Left out

- ConnectionTheory.Safety: streams stay below 2^31 - 2 bytes; messages without acknowledgment number reach a sender only where they do not misplace later segments; once a sender has been told a window that way, what overtakes its SYN is put at its own index or dropped. UnsafeRuns shows that neither assumption can be left out.
- Duplex.PairSafety: the same assumptions in each direction.
- DuplexWire.WireSafety: the same, and no bytes arrive that decode to a message the other peer has not sent.
- StreamModel.Fifo: only runs in which no pop overflows; FifoStepIff shows that this is needed. Reads in the reassembler, the connection and the peers are taken not to overflow.
- Duplex.PairCloses: a peer whose sender is back at the start may be inactive without its bytes having arrived; RewindAfterFinLosesByte shows how.
- ConnectionTheory.AcknowledgedIsDelivered: assumes that no reply counted FIN across a gap; ReplyHonestIff and FinLosesByte show that this is needed.
- SenderTheory.RunConserved: assumes that messages without acknowledgment number arrive only before any byte or after FIN has been sent; RewindHarmlessIff shows that this is needed.
- Rewinding.RewindHarmlessIff: for input capacities below 2^62, since acknowledgments of numbers from 2^63 on are not unwrapped to what they were made from.
- Routers.Router.Route: requires that routes name existing interfaces and that the interfaces are distinct objects; routing to a missing interface raises an exception in the program.
- Parsing.Parser.Integer: requires that no empty chunk comes before one that is not empty, without which the program reads the front of an empty view; the serializer never produces an empty chunk.
- Liveness of a whole connection: only bounded progress is proved, since a FIN counted across a gap can end it.
- Counters that only grow with held data or elapsed time (bytes pushed and popped, absolute sequence numbers, the retransmission count, the peer's and the interface's clocks) are unbounded numbers; values that arrive from the wire, the timer and the timeout have their machine width.
- ByteStream with the largest 64-bit capacity, for which the constructor only sets the error flag.
- The moved-from chunks that `dump_all` leaves in the parser: nothing is said about the parser after it.
- Header fields and datagrams are plain values; the program's in-place updates of them are assignments to local variables here.
- Ethernet and ARP field layout: the payload of a frame is modelled as the datagram or ARP message that parsing leaves, which the interface uses without looking at the parser's error flag; how a malformed payload fills those fields, and the exception on serializing a datagram whose version is not 4, are not modelled.
- `transmit` appends to a log; a transmit that calls back into the interface is not modelled.
- IPv4 and TCP options are skipped and never written. Fragments are not reassembled, and prefix lengths above 32 are excluded.
- The router's decrement of the time to live leaves the header checksum as it was; nothing is claimed about it.
- Sockets, TUN devices, threads, the event loop, address resolution by name, the lossy adapter's random numbers, and all printing.
