/** One sender, one receiver, and a network that loses, duplicates and reorders in both directions.
    Every message ever transmitted stays in the network and may be delivered any number of times, or never. */
module Connection {
  import opened Numbers
  import opened Messages
  import opened Wrapping
  import opened ReassemblerModel
  import opened ReassemblerTheory
  import opened SenderModel
  import opened SenderTheory
  import Stream = StreamModel
  import Rx = ReceiverModel
  import Tx = SenderTheory

  /** `honest`: no reply has counted FIN across a gap. `early`: a message without acknowledgment number has
      reached the sender, so that it knows a window before the receiver has seen its SYN. */
  datatype System = System(sender: Sender, receiver: Rx.Receiver,
                           segments: set<SenderMessage>, acks: set<ReceiverMessage>, honest: bool, early: bool)

  datatype Action =
    | AppWrite(data: seq<byte>)
    | AppClose
    | SenderPush
    | SenderTick(ms: u64)
    | SenderEmpty
    | DeliverSegment(segment: SenderMessage)
    | ReceiverReply
    | DeliverAck(ack: ReceiverMessage)
    | AppRead(len: nat)

  function NewSystem(sendCapacity: nat, receiveCapacity: nat, isn: u32, initialRto: u64): System {
    System(NewSender(sendCapacity, isn, initialRto), Rx.NewReceiver(receiveCapacity), {}, {}, true, false)
  }

  function Elements<T>(s: seq<T>): set<T> {
    set x | x in s
  }

  /** With nothing pending a receiver that has seen SYN counts FIN in its acknowledgment, even if it still waits for
      bytes. */
  predicate CountsFinEarly(r: Rx.Receiver) {
    r.isInit && r.hasFin && Pending(r.reassembly) == 0 && r.reassembly.next != r.reassembly.last
  }

  /** What the network and the application can do: the stream stays below 2^31 - 2 bytes, and only transmitted
      messages are delivered. */
  predicate Possible(y: System, a: Action) {
    match a
    case AppWrite(data) => |y.sender.input.history| + |data| < TWO31 - 2
    case DeliverSegment(m) => m in y.segments
    case DeliverAck(m) => m in y.acks
    case _ => true
  }

  /** A message without acknowledgment number reaches the sender only where it does not misplace later segments. */
  predicate CarefulAck(y: System, a: Action) {
    a.DeliverAck? ==> Harmless(y.sender, Ack(a.ack))
  }

  /** A segment that occupies sequence numbers and overtakes SYN is put at its own index, or is a data segment that is
      dropped. Streams being short, its own number is what it is unwrapped to near zero. */
  predicate Placeable(r: Rx.Receiver, m: SenderMessage, isn: u32) {
    var n := Unwrap(m.seqno, r.isn, r.maxAbsSeqno);
    n == Unwrap(m.seqno, isn, 0) || (!m.fin && Dropped(r.reassembly, U64(n - 1), |m.payload|))
  }

  /** That is asked for only once the sender has been told a window early. */
  predicate CarefulData(y: System, a: Action) {
    a.DeliverSegment? && y.early && !y.receiver.isInit && !a.segment.syn && Length(a.segment) > 0 ==>
      Placeable(y.receiver, a.segment, y.sender.isn)
  }

  predicate Enabled(y: System, a: Action) {
    Possible(y, a) && CarefulAck(y, a) && CarefulData(y, a)
  }

  function SenderStep(y: System, e: Tx.Event): System {
    var t := Tx.Step(y.sender, e);
    y.(sender := t.sender, segments := y.segments + Elements(t.messages))
  }

  function Next(y: System, a: Action): System {
    match a
    case AppWrite(data) => SenderStep(y, Write(data))
    case AppClose => SenderStep(y, CloseInput)
    case SenderPush => SenderStep(y, PushEvent)
    case SenderTick(ms) => SenderStep(y, TickEvent(ms))
    case SenderEmpty => y.(segments := y.segments + {EmptyMessage(y.sender)})
    case DeliverSegment(m) => y.(receiver := Rx.Receive(y.receiver, m))
    case ReceiverReply =>
      y.(acks := y.acks + {Rx.Send(y.receiver)}, honest := y.honest && !CountsFinEarly(y.receiver))
    case DeliverAck(m) => SenderStep(y, Ack(m)).(early := y.early || m.ackno.None?)
    case AppRead(len) => y.(receiver := y.receiver.(reassembly := PopOutput(y.receiver.reassembly, len)))
  }

  function Exec(y: System, actions: seq<Action>): System
    decreases |actions|
  {
    if actions == [] then y else Exec(Next(y, actions[0]), actions[1..])
  }

  predicate AllEnabled(y: System, actions: seq<Action>)
    decreases |actions|
  {
    actions == [] || (Enabled(y, actions[0]) && AllEnabled(Next(y, actions[0]), actions[1..]))
  }

  // ----- the invariant -----

  /** The part of the stream that has been put into segments. */
  function SentBytes(s: Sender): seq<byte> {
    s.input.history[..s.input.removed]
  }

  /** Segments never reach beyond the receiver's room, except for a probe at or before next. */
  function Reach(r: Reassembly): nat {
    Max(Edge(r), r.next + 1)
  }

  /** m is a true segment of the sent bytes with absolute number a. */
  ghost predicate SegmentOk(m: SenderMessage, a: nat, isn: u32, sent: seq<byte>, finSent: bool, reach: nat) {
    && m.seqno == Wrap(a, isn) && a <= |sent| + 2 && !m.rst
    && |m.payload| <= MAX_PAYLOAD_SIZE && (m.syn ==> a == 0) && (a == 0 ==> m.syn || Length(m) == 0)
    && Stream.Agrees(m.payload, Index(a), sent)
    && (m.fin ==> finSent && Index(a) + |m.payload| == |sent|)
    && (m.payload != [] ==> Index(a) + |m.payload| <= reach)
  }

  ghost predicate TrueSegment(m: SenderMessage, s: Sender, reach: nat) {
    exists a :: SegmentOk(m, a, s.isn, SentBytes(s), s.finSent, reach)
  }

  ghost predicate SegmentsOk(y: System) {
    forall m :: m in y.segments ==> TrueSegment(m, y.sender, Reach(y.receiver.reassembly))
  }

  /** The first number not delivered: SYN, the bytes of the output, and FIN when that is everything sent. */
  function AckLimit(r: Reassembly, sent: seq<byte>, finSent: bool): nat {
    r.next + 1 + (if finSent && r.next == |sent| then 1 else 0)
  }

  /** As long as replies are honest an acknowledgment does not run ahead of what was delivered, and until FIN has
      been sent it offers no more than there is room for. */
  ghost predicate AckOk(m: ReceiverMessage, k: nat, isn: u32, sent: seq<byte>, finSent: bool, honest: bool,
                        r: Reassembly) {
    && m.ackno == Some(Wrap(k, isn)) && k <= |sent| + 2
    && (honest ==> k <= AckLimit(r, sent, finSent) && (finSent || k + m.window <= Edge(r) + 1))
  }

  ghost predicate TrueAck(m: ReceiverMessage, s: Sender, honest: bool, r: Reassembly) {
    && !m.rst
    && if m.ackno.None? then m.window <= Edge(r)
       else exists k :: AckOk(m, k, s.isn, SentBytes(s), s.finSent, honest, r)
  }

  ghost predicate AcksOk(y: System) {
    forall m :: m in y.acks ==> TrueAck(m, y.sender, y.honest, y.receiver.reassembly)
  }

  ghost predicate SenderOk(s: Sender) {
    && Sound(s) && !s.input.error
    && |s.input.history| < TWO31 - 2
  }

  /** Everything outstanding is in the network. */
  ghost predicate OutstandingSent(y: System) {
    forall o :: o in y.sender.ost ==> o.msg in y.segments
  }

  /** As long as replies are honest the sender's acknowledgment does not run ahead of what was delivered, and until
      FIN has been sent its window stays within the room there is. */
  ghost predicate WindowOk(y: System) {
    var s, r := y.sender, y.receiver.reassembly;
    y.honest ==>
      && s.lastAckno <= AckLimit(r, SentBytes(s), s.finSent)
      && (s.finSent || s.wnd == 0 || s.lastAckno + s.wnd <= Edge(r) + 1)
  }

  ghost predicate Unclipped(r: Reassembly) {
    forall g :: g in r.segs ==> !Clipped(g)
  }

  ghost predicate ReceiverOk(y: System) {
    && Good(y.receiver.reassembly, SentBytes(y.sender)) && Unclipped(y.receiver.reassembly)
    && !y.receiver.hasRst && !y.receiver.reassembly.output.error
    && (y.receiver.hasFin ==> y.receiver.reassembly.hasLast)
    && (y.receiver.reassembly.hasLast ==> y.sender.finSent)
    && (!y.honest ==> y.sender.finSent)
    && (y.receiver.isInit ==> y.receiver.isn == y.sender.isn
                              && y.receiver.maxAbsSeqno <= |SentBytes(y.sender)| + 2)
  }

  /** Before the receiver has seen SYN it acknowledges nothing, and a sender that has not been told a window has
      sent nothing but SYN. */
  ghost predicate OpeningOk(y: System) {
    !y.receiver.isInit ==>
      && (forall m :: m in y.acks ==> m.ackno.None?) && y.sender.lastAckno == 0
      && (!y.early ==> y.sender.wnd == 1 && y.sender.expAckno <= 1
                       && forall m :: m in y.segments ==> m.syn || Length(m) == 0)
  }

  ghost predicate Inv(y: System) {
    && SenderOk(y.sender) && SegmentsOk(y) && OutstandingSent(y) && AcksOk(y)
    && WindowOk(y) && ReceiverOk(y) && OpeningOk(y)
  }
}
