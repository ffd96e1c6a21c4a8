/** What the TCP sender computes: window filling, outstanding segments, retransmission. */
module SenderModel {
  import opened Numbers
  import opened Messages
  import opened Wrapping
  import opened StreamModel

  const MAX_PAYLOAD_SIZE: nat := 1000

  datatype Timer = Timer(running: bool, expired: bool, expTime: u64, curTime: u64)

  function Grow(t: Timer, time: u64): Timer {
    if !t.running then t
    else if t.curTime + time >= TWO64 then t.(expired := true)
    else t.(curTime := t.curTime + time, expired := t.curTime + time >= t.expTime)
  }

  function Reset(t: Timer, expTime: u64): Timer {
    Timer(true, false, expTime, 0)
  }

  function TurnOff(t: Timer): Timer {
    t.(running := false)
  }

  /** A segment that has been sent and not yet fully acknowledged, under its absolute number. */
  datatype Outstanding = Outstanding(seqno: nat, msg: SenderMessage)

  /** std::map insertion by key: no effect when the key is present. */
  function MapInsert(ost: seq<Outstanding>, o: Outstanding): seq<Outstanding> {
    if ost == [] || o.seqno < ost[0].seqno then [o] + ost
    else if ost[0].seqno < o.seqno then [ost[0]] + MapInsert(ost[1..], o)
    else ost
  }

  /** `lastAckno`: the first number the peer has not acknowledged. `expAckno`: the first number not sent. */
  datatype Sender = Sender(input: Stream, isn: u32, initialRto: u64, curRto: u64,
                           lastAckno: nat, expAckno: nat, finSent: bool, finAcked: bool,
                           retxCnt: nat, conRetx: bool, timer: Timer, wnd: nat, ost: seq<Outstanding>)

  function NewSender(capacity: nat, isn: u32, initialRto: u64): Sender {
    Sender(NewStream(capacity), isn, initialRto, initialRto, 0, 0, false, false, 0, false,
           Timer(false, false, 0, 0), 1, [])
  }

  function InFlight(s: Sender): int {
    s.expAckno - s.lastAckno
  }

  /** Sequence numbers that could still be sent: SYN, buffered bytes, FIN. */
  function Unsent(s: Sender): nat {
    (if s.expAckno == 0 then 1 else 0) + Buffered(s.input) + (if s.input.closed && !s.finSent then 1 else 0)
  }

  /** The window used for sending: a zero window is probed as if it were one. */
  function Effective(wnd: nat): nat {
    if wnd == 0 then 1 else wnd
  }

  /** The next segment when `room` sequence numbers may be used. */
  function Segment(s: Sender, room: nat): SenderMessage {
    var syn := s.expAckno == 0;
    var room1 := if syn && room > 0 then room - 1 else room;
    var payload := Front(s.input, Min(room1, MAX_PAYLOAD_SIZE));
    var fin := room1 - |payload| > 0 && s.input.closed && |payload| == Buffered(s.input);
    SenderMessage(if syn then s.isn else Wrap(s.expAckno, s.isn), syn, payload, fin, s.input.error)
  }

  /** The state after that segment has been taken from the input. */
  function AfterTaking(s: Sender, m: SenderMessage): Sender {
    s.(input := Pop(s.input, |m.payload|), finSent := s.finSent || m.fin)
  }

  /** The state after that segment has been sent. */
  function AfterSegment(s: Sender, room: nat): Sender {
    var m := Segment(s, room);
    AfterTaking(s, m).(
       ost := MapInsert(s.ost, Outstanding(s.expAckno, m)),
       expAckno := s.expAckno + Length(m),
       timer := if s.timer.running then s.timer else Reset(s.timer, s.curRto))
  }

  /** A sender and the messages it has transmitted. */
  datatype Sent = Sent(sender: Sender, messages: seq<SenderMessage>)

  lemma SegmentProgress(s: Sender, room: nat)
    requires room > 0 && Unsent(s) > 0
    ensures 0 < Length(Segment(s, room)) <= room
    ensures !Segment(s, room).fin ==> Length(Segment(s, room)) <= Unsent(s)
    ensures Unsent(AfterSegment(s, room))
            == if Segment(s, room).fin then 0 else Unsent(s) - Length(Segment(s, room))
  {
  }

  /** What sending one segment changes and what it leaves alone. */
  lemma SegmentEffect(s: Sender, room: nat)
    ensures var t := AfterSegment(s, room);
            && |Segment(s, room).payload| <= MAX_PAYLOAD_SIZE
            && t.expAckno == s.expAckno + Length(Segment(s, room))
            && t.ost == MapInsert(s.ost, Outstanding(s.expAckno, Segment(s, room)))
            && t.input.history == s.input.history && (t.input.closed <==> s.input.closed)
            && t == s.(input := t.input, finSent := t.finSent, ost := t.ost, expAckno := t.expAckno, timer := t.timer)
            && t.timer == (if s.timer.running then s.timer else Reset(s.timer, s.curRto))
  {
  }

  /** The loop of push. */
  function Fill(s: Sender, room: nat): Sent
    decreases Unsent(s)
  {
    if Unsent(s) == 0 || room == 0 then Sent(s, [])
    else
      SegmentProgress(s, room);
      var m := Segment(s, room);
      var rest := Fill(AfterSegment(s, room), room - Length(m));
      Sent(rest.sender, [m] + rest.messages)
  }

  lemma FillDone(s: Sender, room: nat)
    requires room == 0 || Unsent(s) == 0
    ensures Fill(s, room) == Sent(s, [])
  {
  }

  lemma FillStep(s: Sender, room: nat)
    requires room > 0 && Unsent(s) > 0
    ensures 0 < Length(Segment(s, room)) <= room
    ensures var rest := Fill(AfterSegment(s, room), room - Length(Segment(s, room)));
            Fill(s, room) == Sent(rest.sender, [Segment(s, room)] + rest.messages)
  {
    SegmentProgress(s, room);
  }

  function Push(s: Sender): Sent {
    if s.finAcked || s.lastAckno + Effective(s.wnd) <= s.expAckno then Sent(s, [])
    else Fill(s, s.lastAckno + Effective(s.wnd) - s.expAckno)
  }

  function EmptyMessage(s: Sender): SenderMessage {
    SenderMessage(Wrap(s.expAckno, s.isn), false, [], false, s.input.error)
  }

  /** Drop from the front the segments that lie entirely below the acknowledgment. */
  function Acknowledge(ost: seq<Outstanding>, ackno: nat): seq<Outstanding> {
    if ost == [] || ost[0].seqno + Length(ost[0].msg) > ackno then ost else Acknowledge(ost[1..], ackno)
  }

  /** A message without acknowledgment number sends the sender back to the start. */
  function Rewind(s: Sender, window: u16): Sender {
    s.(lastAckno := 0, expAckno := 0, wnd := window, ost := [])
  }

  function ReceiveAck(s: Sender, ackno: nat, window: u16): Sender {
    if ackno > s.expAckno then s
    else
      var s1 := s.(finAcked := s.finSent && ackno == s.expAckno);
      if ackno <= s.lastAckno then
        var s2 := s1.(wnd := if ackno + window > s.lastAckno then ackno + window - s.lastAckno else 0);
        if s2.ost == [] then s2.(timer := TurnOff(s2.timer)) else s2
      else
        var s2 := s1.(curRto := s.initialRto, retxCnt := 0, conRetx := false, lastAckno := ackno, wnd := window,
                      ost := Acknowledge(s.ost, ackno));
        s2.(timer := if s2.ost == [] then TurnOff(s2.timer) else Reset(s2.timer, s2.curRto))
  }

  function Receive(s: Sender, m: ReceiverMessage): Sender {
    if m.rst then s.(input := SetError(s.input))
    else match m.ackno
      case None => ReceiveAck(Rewind(s, m.window), 0, m.window)
      case Some(raw) => ReceiveAck(s, Unwrap(raw, s.isn, U64(s.lastAckno)), m.window)
  }

  function Tick(s: Sender, ms: u64): Sent {
    if !s.timer.running then Sent(s, [])
    else
      var s1 := s.(timer := Grow(s.timer, ms));
      if !s1.timer.expired then Sent(s1, [])
      else if s1.ost == [] then Sent(s1.(timer := TurnOff(s1.timer)), [])
      else
        var s2 := if s1.wnd == 0 then s1
                  else s1.(retxCnt := if s1.conRetx then s1.retxCnt + 1 else 1, conRetx := true,
                           curRto := U64(s1.curRto * 2));
        Sent(s2.(timer := Reset(s2.timer, s2.curRto)), [s1.ost[0].msg])
  }
}
