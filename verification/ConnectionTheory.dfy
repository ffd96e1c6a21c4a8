/** Every reachable state of the connection satisfies the invariant; safety follows. */
module ConnectionTheory {
  import opened Numbers
  import opened Messages
  import opened Wrapping
  import opened ReassemblerModel
  import opened ReassemblerTheory
  import opened SenderModel
  import opened SenderTheory
  import opened Connection
  import Stream = StreamModel
  import Rx = ReceiverModel
  import Tx = SenderTheory

  // ----- what only grows -----

  /** The sent bytes grow as a prefix, and not at all once FIN has been sent. */
  ghost predicate SentGrows(s: Sender, t: Sender) {
    && t.isn == s.isn && SentBytes(s) <= SentBytes(t)
    && (s.finSent ==> t.finSent && SentBytes(t) == SentBytes(s))
  }

  ghost predicate RoomGrows(r: Reassembly, q: Reassembly) {
    Edge(r) <= Edge(q) && r.next <= q.next
  }

  lemma SegmentGrows(m: SenderMessage, s: Sender, t: Sender, reach: nat, reach': nat)
    requires TrueSegment(m, s, reach) && SentGrows(s, t) && reach <= reach'
    ensures TrueSegment(m, t, reach')
  {
    hide Wrap, Unwrap;
    var a :| SegmentOk(m, a, s.isn, SentBytes(s), s.finSent, reach);
    Stream.AgreesPrefix(m.payload, Index(a), SentBytes(s), SentBytes(t));
    assert SegmentOk(m, a, t.isn, SentBytes(t), t.finSent, reach');
  }

  lemma AckGrows(m: ReceiverMessage, y: System, z: System)
    requires TrueAck(m, y.sender, y.honest, y.receiver.reassembly) && Grows(y, z)
    ensures TrueAck(m, z.sender, z.honest, z.receiver.reassembly)
  {
    hide Wrap, Unwrap;
    if m.ackno.Some? {
      var k :| AckOk(m, k, y.sender.isn, SentBytes(y.sender), y.sender.finSent, y.honest, y.receiver.reassembly);
      LimitGrows(y.receiver.reassembly, z.receiver.reassembly, y.sender, z.sender);
      assert AckOk(m, k, z.sender.isn, SentBytes(z.sender), z.sender.finSent, z.honest, z.receiver.reassembly);
    }
  }

  lemma LimitGrows(r: Reassembly, q: Reassembly, s: Sender, t: Sender)
    requires SentGrows(s, t) && RoomGrows(r, q) && q.next <= |SentBytes(t)|
    ensures AckLimit(r, SentBytes(s), s.finSent) <= AckLimit(q, SentBytes(t), t.finSent)
  {
  }

  ghost predicate Grows(y: System, z: System) {
    && SentGrows(y.sender, z.sender) && RoomGrows(y.receiver.reassembly, z.receiver.reassembly)
    && z.receiver.reassembly.next <= |SentBytes(z.sender)|
    && (z.honest ==> y.honest)
  }

  /** What is in the network stays true while the system grows. */
  lemma NetworkGrows(y: System, z: System)
    requires SegmentsOk(y) && AcksOk(y) && Grows(y, z)
    ensures forall m :: m in y.segments ==> TrueSegment(m, z.sender, Reach(z.receiver.reassembly))
    ensures forall m :: m in y.acks ==> TrueAck(m, z.sender, z.honest, z.receiver.reassembly)
  {
    hide Wrap, Unwrap;
    forall m | m in y.segments
      ensures TrueSegment(m, z.sender, Reach(z.receiver.reassembly))
    {
      SegmentGrows(m, y.sender, z.sender, Reach(y.receiver.reassembly), Reach(z.receiver.reassembly));
    }
    forall m | m in y.acks
      ensures TrueAck(m, z.sender, z.honest, z.receiver.reassembly)
    {
      AckGrows(m, y, z);
    }
  }

  lemma GoodGrows(r: Reassembly, s: seq<byte>, t: seq<byte>)
    requires Good(r, s) && s <= t && (r.hasLast ==> s == t)
    ensures Good(r, t)
  {
    forall g | g in r.segs
      ensures GoodSeg(g, Edge(r), t)
    {
      Stream.AgreesPrefix(g.data, g.begin, s, t);
    }
    assert s[..r.next] == t[..r.next];
  }

  // ----- sending -----

  /** Sending `room` numbers more stays within the receiver's room, or is a probe at or before next. */
  ghost predicate RoomOk(s: Sender, room: nat, edge: nat, next: nat) {
    room == 0 || s.finSent || s.expAckno + room <= edge + 1 || (room == 1 && s.expAckno <= next + 1)
  }

  /** What sending one segment moves. */
  lemma SegmentMoves(s: Sender, room: nat)
    ensures var t := AfterSegment(s, room);
            && t.input.error == s.input.error && t.input.history == s.input.history && t.isn == s.isn
            && SentBytes(t) == SentBytes(s) + Segment(s, room).payload
            && t.finSent == (s.finSent || Segment(s, room).fin)
            && t.expAckno == s.expAckno + Length(Segment(s, room))
  {
    hide Wrap, Unwrap, MapInsert;
    Stream.PrefixAndSlice(s.input.history, s.input.removed, |Segment(s, room).payload|);
  }

  lemma NewSegmentOk(s: Sender, room: nat, edge: nat, next: nat)
    requires SenderOk(s) && Conserved(s) && room > 0 && Unsent(s) > 0 && RoomOk(s, room, edge, next)
    ensures var t := AfterSegment(s, room);
            && TrueSegment(Segment(s, room), t, Max(edge, next + 1))
            && SenderOk(t) && Conserved(t) && SentGrows(s, t)
            && t.ost == s.ost + [Outstanding(s.expAckno, Segment(s, room))]
            && RoomOk(t, room - Length(Segment(s, room)), edge, next)
  {
    SegmentProgress(s, room);
    SegmentStructured(s, room);
    SegmentConserved(s, room);
    NewSegmentTrue(s, room, edge, next);
    SegmentMoves(s, room);
    assert s.finSent ==> Segment(s, room).payload == [];
    hide Wrap, Unwrap, Structured, Conserved, MapInsert, Carries, TrueSegment, Segment, AfterSegment, SentBytes, Unsent;
  }

  lemma NewSegmentTrue(s: Sender, room: nat, edge: nat, next: nat)
    requires SenderOk(s) && Conserved(s) && room > 0 && Unsent(s) > 0 && RoomOk(s, room, edge, next)
    ensures TrueSegment(Segment(s, room), AfterSegment(s, room), Max(edge, next + 1))
  {
    hide Wrap, Unwrap, Structured, MapInsert, Carries;
    var t := AfterSegment(s, room);
    var m := Segment(s, room);
    SegmentMoves(s, room);
    if s.expAckno == 0 {
      WrapZero(s.isn);
    }
    assert SegmentOk(m, s.expAckno, s.isn, SentBytes(t), t.finSent, Max(edge, next + 1));
  }

  lemma {:induction false} FillOk(s: Sender, room: nat, edge: nat, next: nat)
    requires SenderOk(s) && Conserved(s) && RoomOk(s, room, edge, next)
    ensures var f := Fill(s, room);
            var t := f.sender;
            && SenderOk(t) && SentGrows(s, t) && t.lastAckno == s.lastAckno && t.wnd == s.wnd
            && s.expAckno <= t.expAckno <= s.expAckno + room
            && (forall m :: m in f.messages ==> TrueSegment(m, t, Max(edge, next + 1)))
            && (forall o :: o in t.ost ==> o in s.ost || o.msg in f.messages)
    decreases Unsent(s)
  {
    hide Wrap, Unwrap, SenderOk, Conserved, Segment, AfterSegment, TrueSegment, Unsent, SentBytes;
    if Unsent(s) > 0 && room > 0 {
      FillStep(s, room);
      SegmentProgress(s, room);
      SegmentEffect(s, room);
      NewSegmentOk(s, room, edge, next);
      var u := AfterSegment(s, room);
      var m := Segment(s, room);
      FillOk(u, room - Length(m), edge, next);
      SegmentGrows(m, u, Fill(s, room).sender, Max(edge, next + 1), Max(edge, next + 1));
    }
  }

  /** Whatever the sender does, if it stays in order and transmits true segments, the network and the
      receiver's view of it stay true. */
  lemma SenderMoves(y: System, t: Sender, messages: seq<SenderMessage>)
    requires Inv(y) && SenderOk(t) && SentGrows(y.sender, t)
    requires forall m :: m in messages ==> TrueSegment(m, t, Reach(y.receiver.reassembly))
    requires forall o :: o in t.ost ==> o in y.sender.ost || o.msg in messages
    ensures var z := y.(sender := t, segments := y.segments + Elements(messages));
            SegmentsOk(z) && AcksOk(z) && OutstandingSent(z) && ReceiverOk(z)
    ensures AckLimit(y.receiver.reassembly, SentBytes(y.sender), y.sender.finSent)
         <= AckLimit(y.receiver.reassembly, SentBytes(t), t.finSent)
  {
    hide Wrap, Unwrap;
    var z := y.(sender := t, segments := y.segments + Elements(messages));
    GoodGrows(y.receiver.reassembly, SentBytes(y.sender), SentBytes(t));
    NetworkGrows(y, z);
  }

  /** With room for one number the first push sends SYN alone. */
  lemma FillOpening(s: Sender)
    requires s.expAckno == 0
    ensures Fill(s, 1).messages == [Segment(s, 1)] && Segment(s, 1).syn && Fill(s, 1).sender.expAckno == 1
  {
    hide Wrap, Unwrap;
    FillStep(s, 1);
    var t := AfterSegment(s, 1);
    assert Fill(t, 0) == Sent(t, []);
  }

  lemma PushInv(y: System)
    requires Inv(y)
    ensures Inv(Next(y, SenderPush))
  {
    hide Wrap, Unwrap, Fill, Good, TrueSegment, TrueAck, Segment, Unclipped;
    var s := y.sender;
    if s.finAcked || s.lastAckno + Effective(s.wnd) <= s.expAckno {
      assert Next(y, SenderPush).segments == y.segments;
    } else {
      var room := s.lastAckno + Effective(s.wnd) - s.expAckno;
      var r := y.receiver.reassembly;
      var f := Fill(s, room);
      FillOk(s, room, Edge(r), r.next);
      SenderMoves(y, f.sender, f.messages);
      if s.expAckno == 0 && room == 1 {
        FillOpening(s);
      }
    }
  }

  /** Steps of the sender that neither send for the first time nor hear from the receiver. */
  lemma SteadyInv(y: System, t: Sender)
    requires Inv(y) && SenderOk(t) && Extends(t.input, y.sender.input) && t.input.removed == y.sender.input.removed
    requires t.isn == y.sender.isn && t.ost == y.sender.ost && t.finSent == y.sender.finSent && t.wnd == y.sender.wnd
    requires t.lastAckno == y.sender.lastAckno && t.expAckno == y.sender.expAckno
    ensures Inv(y.(sender := t))
  {
    assert SentGrows(y.sender, t) && SentBytes(t) == SentBytes(y.sender);
    SenderMoves(y, t, []);
    assert y.segments + Elements([]) == y.segments;
    hide SenderOk, SegmentsOk, AcksOk, OutstandingSent, ReceiverOk, SentBytes;
  }

  lemma WriteInv(y: System, data: seq<byte>)
    requires Inv(y) && Enabled(y, AppWrite(data))
    ensures Inv(Next(y, AppWrite(data)))
  {
    StepSound(y.sender, Write(data));
    hide Wrap, Unwrap, Sound, Inv;
    SteadyInv(y, Tx.Step(y.sender, Write(data)).sender);
    assert y.segments + Elements([]) == y.segments;
  }

  lemma CloseInv(y: System)
    requires Inv(y)
    ensures Inv(Next(y, AppClose))
  {
    StepSound(y.sender, CloseInput);
    hide Wrap, Unwrap, Sound, Inv;
    SteadyInv(y, Tx.Step(y.sender, CloseInput).sender);
    assert y.segments + Elements([]) == y.segments;
  }

  /** A tick touches nothing but the timer and the backoff, and sends again only what is outstanding. */
  lemma TickFrame(s: Sender, ms: u64)
    ensures var t := Tick(s, ms).sender;
            && t == s.(timer := t.timer, retxCnt := t.retxCnt, conRetx := t.conRetx, curRto := t.curRto)
            && (forall m :: m in Tick(s, ms).messages ==> exists o :: o in s.ost && o.msg == m)
  {
  }

  lemma TickInv(y: System, ms: u64)
    requires Inv(y)
    ensures Inv(Next(y, SenderTick(ms)))
  {
    TickFrame(y.sender, ms);
    StepSound(y.sender, TickEvent(ms));
    assert y.segments + Elements(Tick(y.sender, ms).messages) == y.segments;
    hide Wrap, Unwrap, Tick, Sound, Inv;
    SteadyInv(y, Tick(y.sender, ms).sender);
  }

  lemma EmptyInv(y: System)
    requires Inv(y)
    ensures Inv(Next(y, SenderEmpty))
  {
    hide Wrap, Unwrap;
    var m := EmptyMessage(y.sender);
    assert SegmentOk(m, y.sender.expAckno, y.sender.isn, SentBytes(y.sender), y.sender.finSent,
                     Reach(y.receiver.reassembly));
  }

  lemma ReplyInv(y: System)
    requires Inv(y)
    ensures Inv(Next(y, ReceiverReply))
  {
    hide Wrap, Unwrap, SenderOk, TrueSegment, TrueAck, GoodSeg, SafeToWrite;
    ReplyTrue(y);
    NetworkGrows(y, Next(y, ReceiverReply));
  }

  /** What the receiver says is true. */
  lemma ReplyTrue(y: System)
    requires Inv(y)
    ensures TrueAck(Rx.Send(y.receiver), y.sender, y.honest && !CountsFinEarly(y.receiver), y.receiver.reassembly)
    ensures y.receiver.isInit ==>
              AckOk(Rx.Send(y.receiver), Rx.AbsAckno(y.receiver), y.sender.isn, SentBytes(y.sender), y.sender.finSent,
                    y.honest && !CountsFinEarly(y.receiver), y.receiver.reassembly)
  {
    hide Wrap, Unwrap, SenderOk, SegmentsOk, AcksOk, Unclipped;
    var r := y.receiver;
    if r.isInit {
      assert AckOk(Rx.Send(r), Rx.AbsAckno(r), y.sender.isn, SentBytes(y.sender), y.sender.finSent,
                   y.honest && !CountsFinEarly(r), r.reassembly);
    }
  }

  /** An acknowledgment from the network is unwrapped to the number it was made from. */
  lemma AckUnwraps(y: System, m: ReceiverMessage) returns (k: nat)
    requires Inv(y) && m in y.acks && m.ackno.Some?
    ensures AckOk(m, k, y.sender.isn, SentBytes(y.sender), y.sender.finSent, y.honest, y.receiver.reassembly)
    ensures Receive(y.sender, m) == ReceiveAck(y.sender, k, m.window)
  {
    hide Wrap, Unwrap, ReceiveAck;
    var s := y.sender;
    assert TrueAck(m, s, y.honest, y.receiver.reassembly);
    k :| AckOk(m, k, s.isn, SentBytes(s), s.finSent, y.honest, y.receiver.reassembly);
    assert s.lastAckno < TWO31 && k < TWO31;
    UnwrapWrap(k, s.isn, s.lastAckno);
  }

  lemma {:induction false} AcknowledgeKeeps(ost: seq<Outstanding>, ackno: nat)
    ensures forall o :: o in Acknowledge(ost, ackno) ==> o in ost
  {
    if ost != [] && ost[0].seqno + Length(ost[0].msg) <= ackno {
      AcknowledgeKeeps(ost[1..], ackno);
    }
  }

  /** A message to the sender changes nothing that has been sent, and leaves nothing new outstanding. */
  lemma ReceiveFrame(s: Sender, m: ReceiverMessage)
    requires SenderOk(s) && !m.rst && Harmless(s, Ack(m))
    ensures var t := Receive(s, m);
            && SenderOk(t) && SentGrows(s, t) && t.finSent == s.finSent
            && (forall o :: o in t.ost ==> o in s.ost)
            && (m.ackno.Some? ==> t.expAckno == s.expAckno)
            && (m.ackno.None? ==> t.lastAckno == t.expAckno == 0 && t.wnd == m.window)
  {
    StepSound(s, Ack(m));
    hide Sound, Wrap, Unwrap, Harmless;
    match m.ackno
    case None =>
    case Some(raw) =>
      AckFrame(s, Unwrap(raw, s.isn, U64(s.lastAckno)), m.window);
      hide ReceiveAck;
  }

  lemma AckFrame(s: Sender, k: nat, window: u16)
    ensures var t := ReceiveAck(s, k, window);
            && t.input == s.input && t.isn == s.isn && t.finSent == s.finSent && t.expAckno == s.expAckno
            && (forall o :: o in t.ost ==> o in s.ost)
  {
    AcknowledgeKeeps(s.ost, k);
    hide Acknowledge;
  }

  lemma DeliverAckInv(y: System, m: ReceiverMessage)
    requires Inv(y) && Enabled(y, DeliverAck(m))
    ensures Inv(Next(y, DeliverAck(m)))
  {
    hide Wrap, Unwrap, ReceiveAck, SenderModel.Receive, Harmless, Good, Unclipped, SenderOk;
    assert TrueAck(m, y.sender, y.honest, y.receiver.reassembly);
    ReceiveFrame(y.sender, m);
    var t := Receive(y.sender, m);
    SenderMoves(y, t, []);
    var z := Next(y, DeliverAck(m));
    assert z.sender == t && z.segments == y.segments;
    if m.ackno.Some? {
      var k := AckUnwraps(y, m);
      AckWindow(y.sender, k, m.window, y.receiver.reassembly);
    }
  }

  /** An acknowledgment of delivered bytes that offers only existing room leaves the window within both. */
  lemma AckWindow(s: Sender, k: nat, window: u16, r: Reassembly)
    ensures var t := ReceiveAck(s, k, window);
            && t.lastAckno <= Max(s.lastAckno, k)
            && ((s.wnd == 0 || s.lastAckno + s.wnd <= Edge(r) + 1) && k + window <= Edge(r) + 1 ==>
                  t.wnd == 0 || t.lastAckno + t.wnd <= Edge(r) + 1)
  {
  }

  lemma ReadInv(y: System, len: nat)
    requires Inv(y)
    ensures Inv(Next(y, AppRead(len)))
  {
    hide Wrap, Unwrap;
    PopKeepsGood(y.receiver.reassembly, len, SentBytes(y.sender));
    NetworkGrows(y, Next(y, AppRead(len)));
  }

  // ----- receiving -----

  /** A truthful substring within reach keeps the reassembler's invariant and stores nothing clipped. */
  lemma InsertOk(r: Reassembly, first: u64, data: seq<byte>, isLast: bool, sent: seq<byte>)
    requires Good(r, sent) && Unclipped(r) && Consistent(first, data, isLast, sent) && |sent| < TWO64
    requires data == [] || first + |data| <= Reach(r)
    ensures var q := Insert(r, first, data, isLast);
            && Good(q, sent) && Unclipped(q) && RoomGrows(r, q)
            && q.output.error == r.output.error && q.hasLast == (r.hasLast || isLast)
  {
    var q := Insert(r, first, data, isLast);
    InsertRefines(r, first, data, isLast, sent);
    InsertFrame(r, first, data, isLast);
    FirstGap(r, sent);
    FirstGap(q, sent);
    assert q.next !in Known(r);
  }

  /** A segment from the network is put at the index it was made from. */
  lemma SegmentInserted(y: System, m: SenderMessage)
    requires Inv(y) && Enabled(y, DeliverSegment(m))
    ensures var q := Rx.Receive(y.receiver, m).reassembly;
            && Good(q, SentBytes(y.sender)) && Unclipped(q) && RoomGrows(y.receiver.reassembly, q)
            && !q.output.error && q.hasLast == (y.receiver.reassembly.hasLast || m.fin)
    ensures var t := Rx.Receive(y.receiver, m);
            && !t.hasRst && t.hasFin == (m.fin || (!m.syn && y.receiver.hasFin)) && (m.fin ==> y.sender.finSent)
            && t.isInit == (y.receiver.isInit || m.syn)
            && (t.isInit ==> t.isn == y.sender.isn && t.maxAbsSeqno <= |SentBytes(y.sender)| + 2)
  {
    hide Insert, Good, Unclipped, Sound, AcksOk, WindowOk, OutstandingSent, Wrap, Unwrap, U64, Dropped, Reach;
    var r := y.receiver;
    var sent := SentBytes(y.sender);
    assert TrueSegment(m, y.sender, Reach(r.reassembly));
    var a: nat :| SegmentOk(m, a, y.sender.isn, sent, y.sender.finSent, Reach(r.reassembly));
    if m.syn {
      WrapZero(y.sender.isn);
      InsertOk(r.reassembly, 0, m.payload, m.fin, sent);
    } else if r.isInit {
      assert a < TWO31 && r.maxAbsSeqno < TWO31;
      UnwrapWrap(a, r.isn, r.maxAbsSeqno);
      IndexFits(a);
      InsertOk(r.reassembly, U64(a - 1), m.payload, m.fin, sent);
    } else if Length(m) == 0 {
      InsertOk(r.reassembly, U64(Unwrap(m.seqno, r.isn, r.maxAbsSeqno) - 1), m.payload, m.fin, sent);
    } else {
      UnwrapWrap(a, y.sender.isn, 0);
      IndexFits(a);
      EarlyInserted(r.reassembly, U64(Unwrap(m.seqno, r.isn, r.maxAbsSeqno) - 1), a, m, sent);
    }
  }

  /** A segment that overtakes SYN, put at its own index or dropped. */
  lemma EarlyInserted(r: Reassembly, first: u64, a: nat, m: SenderMessage, sent: seq<byte>)
    requires Good(r, sent) && Unclipped(r) && |sent| < TWO64 && 0 < a < TWO31
    requires Stream.Agrees(m.payload, a - 1, sent) && (m.fin ==> a - 1 + |m.payload| == |sent|)
    requires m.payload == [] || a - 1 + |m.payload| <= Reach(r)
    requires first == a - 1 || (!m.fin && Dropped(r, first, |m.payload|))
    ensures var q := Insert(r, first, m.payload, m.fin);
            && Good(q, sent) && Unclipped(q) && RoomGrows(r, q)
            && q.output.error == r.output.error && q.hasLast == (r.hasLast || m.fin)
  {
    if first == a - 1 {
      InsertOk(r, first, m.payload, m.fin, sent);
    } else {
      assert Insert(r, first, m.payload, m.fin) == r;
    }
  }

  lemma IndexFits(a: nat)
    requires a < TWO31
    ensures a > 0 ==> U64(a - 1) == a - 1
  {
  }

  lemma DeliverSegmentInv(y: System, m: SenderMessage)
    requires Inv(y) && Enabled(y, DeliverSegment(m))
    ensures Inv(Next(y, DeliverSegment(m)))
  {
    hide Wrap, Unwrap, Rx.Receive;
    SegmentInserted(y, m);
    NetworkGrows(y, Next(y, DeliverSegment(m)));
  }

  // ----- runs -----

  lemma NewSystemInv(sendCapacity: nat, receiveCapacity: nat, isn: u32, initialRto: u64)
    ensures Inv(NewSystem(sendCapacity, receiveCapacity, isn, initialRto))
  {
  }

  lemma NextInv(y: System, a: Action)
    requires Inv(y) && Enabled(y, a)
    ensures Inv(Next(y, a))
  {
    hide Wrap, Unwrap;
    match a
    case AppWrite(data) => WriteInv(y, data);
    case AppClose => CloseInv(y);
    case SenderPush => PushInv(y);
    case SenderTick(ms) => TickInv(y, ms);
    case SenderEmpty => EmptyInv(y);
    case DeliverSegment(m) => DeliverSegmentInv(y, m);
    case ReceiverReply => ReplyInv(y);
    case DeliverAck(m) => DeliverAckInv(y, m);
    case AppRead(len) => ReadInv(y, len);
  }

  lemma {:induction false} ExecInv(y: System, actions: seq<Action>)
    requires Inv(y) && AllEnabled(y, actions)
    ensures Inv(Exec(y, actions))
    decreases |actions|
  {
    hide Wrap, Unwrap;
    if actions != [] {
      hide Next, Enabled, Inv;
      NextInv(y, actions[0]);
      ExecInv(Next(y, actions[0]), actions[1..]);
    }
  }

  /** End-to-end safety: in every reachable state the receiver's output is a prefix of what was written to the
      sender, and it is closed only when it is all of it and the writer has closed. */
  lemma Safety(sendCapacity: nat, receiveCapacity: nat, isn: u32, initialRto: u64, actions: seq<Action>)
    requires AllEnabled(NewSystem(sendCapacity, receiveCapacity, isn, initialRto), actions)
    ensures Safe(Exec(NewSystem(sendCapacity, receiveCapacity, isn, initialRto), actions))
  {
    hide Wrap, Unwrap;
    NewSystemInv(sendCapacity, receiveCapacity, isn, initialRto);
    ExecInv(NewSystem(sendCapacity, receiveCapacity, isn, initialRto), actions);
    SafeIfInv(Exec(NewSystem(sendCapacity, receiveCapacity, isn, initialRto), actions));
  }

  ghost predicate Safe(y: System) {
    var received := y.receiver.reassembly.output;
    && received.history <= y.sender.input.history
    && (received.closed ==> y.sender.input.closed && received.history == y.sender.input.history)
  }

  /** Once FIN has been sent the input is closed and all of it has been sent. */
  lemma FinClosesInput(s: Sender)
    requires SenderOk(s) && s.finSent
    ensures s.input.closed && SentBytes(s) == s.input.history
  {
  }

  lemma SafeIfInv(y: System)
    requires Inv(y)
    ensures Safe(y)
  {
    hide Wrap, Unwrap;
    if y.sender.finSent {
      FinClosesInput(y.sender);
    }
  }

  // ----- acknowledged and delivered -----

  /** The sent bytes whose numbers the sender has seen acknowledged. */
  function Acknowledged(s: Sender): seq<byte> {
    SentBytes(s)[..Min(Index(s.lastAckno), |SentBytes(s)|)]
  }

  /** Every acknowledged byte is in the receiver's output. */
  ghost predicate AcksHold(y: System) {
    Acknowledged(y.sender) <= y.receiver.reassembly.output.history
  }

  lemma AcksHoldIff(y: System)
    requires Inv(y)
    ensures AcksHold(y) <==> Min(Index(y.sender.lastAckno), |SentBytes(y.sender)|) <= y.receiver.reassembly.next
  {
    hide Wrap, Unwrap, SenderOk, SegmentsOk, AcksOk;
    assert y.receiver.reassembly.output.history == SentBytes(y.sender)[..y.receiver.reassembly.next];
  }

  lemma HonestAcksHold(y: System)
    requires Inv(y)
    ensures y.honest ==> AcksHold(y)
  {
    AcksHoldIff(y);
    hide AcksHold, Wrap, Unwrap;
  }

  /** m has a sequence number that stands for absolute number a, and if all of it is acknowledged its payload
      is in the receiver's output. */
  ghost predicate DeliveredIfAcked(m: SenderMessage, a: nat, y: System) {
    && m.seqno == Wrap(a, y.sender.isn) && a < TWO32
    && (a + Length(m) <= y.sender.lastAckno ==>
          Stream.Agrees(m.payload, Index(a), y.receiver.reassembly.output.history))
  }

  lemma SegmentDelivered(y: System, m: SenderMessage)
    requires Inv(y) && m in y.segments && y.honest
    ensures exists a :: DeliveredIfAcked(m, a, y)
  {
    hide Wrap, Unwrap;
    var r := y.receiver.reassembly;
    var sent := SentBytes(y.sender);
    assert TrueSegment(m, y.sender, Reach(r));
    var a: nat :| SegmentOk(m, a, y.sender.isn, sent, y.sender.finSent, Reach(r));
    if a + Length(m) <= y.sender.lastAckno && m.payload != [] {
      Stream.SliceOfPrefix(sent, r.next, Index(a), Index(a) + |m.payload|);
    }
    assert DeliveredIfAcked(m, a, y);
  }

  /** Acknowledged implies delivered, FIN included. In every reachable state in which no reply has counted FIN
      across a gap, every byte acknowledged to the sender is in the output, so is the payload of every segment that
      lies below its acknowledgment, such as those erased from the outstanding ones, and if FIN itself is
      acknowledged the output is the whole closed input. */
  lemma AcknowledgedIsDelivered(sendCapacity: nat, receiveCapacity: nat, isn: u32, initialRto: u64,
                                actions: seq<Action>)
    requires AllEnabled(NewSystem(sendCapacity, receiveCapacity, isn, initialRto), actions)
    ensures var y := Exec(NewSystem(sendCapacity, receiveCapacity, isn, initialRto), actions);
            y.honest ==>
              && AcksHold(y)
              && (forall m :: m in y.segments ==> exists a :: DeliveredIfAcked(m, a, y))
              && (y.sender.lastAckno == |SentBytes(y.sender)| + 2 ==>
                    y.sender.input.closed && y.receiver.reassembly.output.history == y.sender.input.history)
  {
    hide Wrap, Unwrap;
    var y := Exec(NewSystem(sendCapacity, receiveCapacity, isn, initialRto), actions);
    NewSystemInv(sendCapacity, receiveCapacity, isn, initialRto);
    ExecInv(NewSystem(sendCapacity, receiveCapacity, isn, initialRto), actions);
    if y.honest {
      HonestAcksHold(y);
      forall m | m in y.segments
        ensures exists a :: DeliveredIfAcked(m, a, y)
      {
        SegmentDelivered(y, m);
      }
      if y.sender.finSent {
        FinClosesInput(y.sender);
      }
    }
  }

  /** The receiver replies and the reply reaches the sender. */
  function ReplyDelivered(y: System): System {
    Next(Next(y, ReceiverReply), DeliverAck(Rx.Send(y.receiver)))
  }

  /** The reply of a receiver that has seen SYN is unwrapped to what the receiver acknowledged. */
  lemma ReplyArrives(y: System)
    requires Inv(y) && y.receiver.isInit
    ensures Enabled(Next(y, ReceiverReply), DeliverAck(Rx.Send(y.receiver)))
    ensures Inv(ReplyDelivered(y))
    ensures ReplyDelivered(y).sender == ReceiveAck(y.sender, Rx.AbsAckno(y.receiver), Rx.Window(y.receiver))
    ensures ReplyDelivered(y).receiver == y.receiver
    ensures ReplyDelivered(y).honest == (y.honest && !CountsFinEarly(y.receiver))
  {
    ReplyInv(y);
    ReplyTrue(y);
    var z := Next(y, ReceiverReply);
    hide ReceiveAck, Wrap, Unwrap;
    DeliverAckInv(z, Rx.Send(y.receiver));
    UnwrapWrap(Rx.AbsAckno(y.receiver), y.sender.isn, y.sender.lastAckno);
  }

  /** The exact condition. From any reachable state with honest replies so far, let the receiver reply and the reply
      arrive: every acknowledged byte is delivered, unless the receiver counts FIN with nothing pending before it
      has reached the end, and the sender listens. A sender sent back to the start after FIN does not. */
  lemma ReplyHonestIff(sendCapacity: nat, receiveCapacity: nat, isn: u32, initialRto: u64, actions: seq<Action>)
    requires AllEnabled(NewSystem(sendCapacity, receiveCapacity, isn, initialRto), actions)
    ensures var y := Exec(NewSystem(sendCapacity, receiveCapacity, isn, initialRto), actions);
            y.honest && y.receiver.isInit ==>
              (AcksHold(ReplyDelivered(y)) <==> !CountsFinEarly(y.receiver) || y.sender.expAckno == 0)
  {
    hide Wrap, Unwrap;
    var y := Exec(NewSystem(sendCapacity, receiveCapacity, isn, initialRto), actions);
    NewSystemInv(sendCapacity, receiveCapacity, isn, initialRto);
    ExecInv(NewSystem(sendCapacity, receiveCapacity, isn, initialRto), actions);
    if y.honest && y.receiver.isInit {
      ReplyArrives(y);
      AcksHoldIff(ReplyDelivered(y));
    }
  }

  /** No step moves the advertised right edge to the left. */
  lemma RightEdgeStays(y: System, a: Action)
    requires Inv(y) && Enabled(y, a)
    ensures var r, q := y.receiver, Next(y, a).receiver;
            r.reassembly.next + 1 + Rx.Window(r) <= q.reassembly.next + 1 + Rx.Window(q)
  {
    hide Wrap, Unwrap;
    if a.DeliverSegment? {
      SegmentInserted(y, a.segment);
      assert Good(Next(y, a).receiver.reassembly, SentBytes(y.sender));
    }
  }

  /** The window the sender works with is the receiver's room. Once a reply has arrived at a sender that is not back
      at the start, the right edge of its window is the acknowledged number plus all the room the output has, at
      most 65535, unless it has seen all of that acknowledged already. */
  lemma ReplySetsWindow(y: System)
    requires Inv(y) && y.receiver.isInit && y.sender.expAckno > 0
    ensures var out, s := y.receiver.reassembly.output, ReplyDelivered(y).sender;
            var room := out.capacity - |out.history[out.removed..]|;
            && s.lastAckno == Max(y.sender.lastAckno, Rx.AbsAckno(y.receiver))
            && s.lastAckno + s.wnd == Max(s.lastAckno, Rx.AbsAckno(y.receiver) + Min(room, 65535))
  {
    ReplyArrives(y);
    AcknowledgesOnlySent(y);
    hide Inv, ReplyDelivered, Rx.AbsAckno, Acknowledge;
  }

  /** The first number never sent: SYN, the sent bytes and FIN have been. */
  function FirstUnsent(s: Sender): nat {
    1 + |SentBytes(s)| + (if s.finSent then 1 else 0)
  }

  /** The receiver never acknowledges a number that has not been sent, FIN counted or not; a sender that is not back
      at the start knows which these are. */
  lemma AcknowledgesOnlySent(y: System)
    requires Inv(y) && y.receiver.isInit
    ensures y.receiver.reassembly.next + 1 <= Rx.AbsAckno(y.receiver) <= FirstUnsent(y.sender)
    ensures y.sender.expAckno == 0 || y.sender.expAckno == FirstUnsent(y.sender)
  {
  }

  lemma {:induction false} TilesEnds(ost: seq<Outstanding>, lo: nat, hi: nat)
    requires Tiles(ost, lo, hi) && ost != []
    ensures forall o :: o in ost ==> lo + Length(ost[0].msg) <= o.seqno + Length(o.msg)
  {
    if |ost| > 1 {
      TilesEnds(ost[1..], lo + Length(ost[0].msg), hi);
    }
  }

  /** Whatever is outstanding reaches beyond the acknowledgment. */
  lemma OutstandingBeyond(s: Sender)
    requires Structured(s)
    ensures forall o :: o in s.ost ==> s.lastAckno < o.seqno + Length(o.msg)
  {
    if s.ost != [] {
      TilesEnds(s.ost, s.ost[0].seqno, s.expAckno);
    }
  }

  /** A reply that counts FIN across a gap takes the sender one number beyond the missing byte. */
  lemma ReplyPassesByte(y: System)
    requires Inv(y) && y.honest && y.receiver.isInit && CountsFinEarly(y.receiver) && y.sender.expAckno > 0
    ensures ReplyDelivered(y).sender.lastAckno == y.receiver.reassembly.next + 2 <= |SentBytes(y.sender)| + 1
    ensures Structured(ReplyDelivered(y).sender) && ReplyDelivered(y).receiver == y.receiver
  {
    AcknowledgedNumber(y);
    AcknowledgesOnlySent(y);
    ReplyArrives(y);
    hide Wrap, Unwrap, ReplyDelivered, Rx.AbsAckno, Structured, SegmentsOk, AcksOk, Unclipped, Good;
  }

  /** A true segment that ends before FIN, and not with SYN, ends with a byte. */
  lemma EndsWithByte(m: SenderMessage, a: nat, isn: u32, sent: seq<byte>, finSent: bool, reach: nat)
    requires SegmentOk(m, a, isn, sent, finSent, reach) && Length(m) > 0 && (m.syn <==> a == 0)
    requires 2 <= a + Length(m) <= |sent| + 1
    ensures m.payload != [] && Index(a) + |m.payload| + 1 == a + Length(m)
  {
    hide Wrap, Stream.Agrees;
  }

  /** Then the byte is lost for good: a segment that ends with the missing byte is no longer outstanding once the
      reply has arrived, and only outstanding segments are ever sent again. */
  lemma ReplyErases(y: System, o: Outstanding)
    requires Inv(y) && y.honest && y.receiver.isInit && CountsFinEarly(y.receiver)
    requires o in y.sender.ost && o.seqno + Length(o.msg) == y.receiver.reassembly.next + 2
    ensures o.msg.payload != [] && Index(o.seqno) + |o.msg.payload| == y.receiver.reassembly.next + 1
    ensures o !in ReplyDelivered(y).sender.ost && ReplyDelivered(y).receiver == y.receiver
  {
    assert Structured(y.sender);
    hide Inv, ReplyDelivered, Wrap, Structured, CountsFinEarly, SegmentOk, Length, Index, SentBytes;
    OutstandingIsTrue(y, o);
    OutstandingNotEmpty(y.sender, o);
    ReplyPassesByte(y);
    OutstandingBeyond(ReplyDelivered(y).sender);
    EndsWithByte(o.msg, o.seqno, y.sender.isn, SentBytes(y.sender), y.sender.finSent, Reach(y.receiver.reassembly));
  }

  lemma OutstandingNotEmpty(s: Sender, o: Outstanding)
    requires Structured(s) && o in s.ost
    ensures Length(o.msg) > 0
  {
    TilesNotEmpty(s.ost, s.ost[0].seqno, s.expAckno);
  }

  lemma {:induction false} TilesNotEmpty(ost: seq<Outstanding>, lo: nat, hi: nat)
    requires Tiles(ost, lo, hi)
    ensures forall o :: o in ost ==> Length(o.msg) > 0
  {
    if ost != [] {
      TilesNotEmpty(ost[1..], lo + Length(ost[0].msg), hi);
    }
  }

  // ----- progress -----

  /** The first outstanding segment arrives, the receiver replies, and the reply arrives. */
  function OneRound(y: System): System
    requires y.sender.ost != []
  {
    ReplyDelivered(Next(y, DeliverSegment(y.sender.ost[0].msg)))
  }

  /** An outstanding segment is in the network as a true segment with its own absolute number. */
  lemma OutstandingIsTrue(y: System, o: Outstanding)
    requires Inv(y) && o in y.sender.ost
    ensures o.msg in y.segments
    ensures SegmentOk(o.msg, o.seqno, y.sender.isn, SentBytes(y.sender), y.sender.finSent, Reach(y.receiver.reassembly))
    ensures o.seqno + Length(o.msg) <= y.sender.expAckno && (o.msg.syn <==> o.seqno == 0)
  {
    hide Good, Unclipped, ReceiverOk, AcksOk, WindowOk, OpeningOk, Reach, Tiles, Wrap;
    var s := y.sender;
    assert TrueSegment(o.msg, s, Reach(y.receiver.reassembly));
    var a: nat :| SegmentOk(o.msg, a, s.isn, SentBytes(s), s.finSent, Reach(y.receiver.reassembly));
    assert Carries(o.msg, o.seqno, s.isn, s.input);
    TilesBounds(s.ost, s.ost[0].seqno, s.expAckno);
    SameNumber(a, o.seqno, s.isn);
  }

  /** Inserting at or before next what there is room for brings next to the end of it at least; with no room and
      something new, next stays. */
  lemma InsertAdvances(r: Reassembly, first: u64, data: seq<byte>, isLast: bool, sent: seq<byte>)
    requires Good(r, sent) && Consistent(first, data, isLast, sent) && |sent| < TWO64 && first <= r.next
    ensures var q := Insert(r, first, data, isLast);
            && r.next <= q.next
            && (first + |data| <= Max(r.next, Edge(r)) ==> first + |data| <= q.next)
            && (r.next == Edge(r) ==> q.next == r.next)
  {
    var q := Insert(r, first, data, isLast);
    InsertRefines(r, first, data, isLast, sent);
    FirstGap(r, sent);
    FirstGap(q, sent);
    assert q.next !in Known(r) && q.next !in Interval(first, Min(first + |data|, Edge(r)));
    if r.next == Edge(r) {
      assert r.next !in Known(q);
    }
  }

  /** At the end of the sent bytes nothing can be pending. */
  lemma NothingPendingAtEnd(r: Reassembly, sent: seq<byte>)
    requires Good(r, sent) && r.next == |sent|
    ensures Pending(r) == 0
  {
    forall g | g in r.segs
      ensures g.begin == g.end
    {
      assert GoodSeg(g, Edge(r), sent);
    }
    forall i: int
      ensures i !in Covered(r.segs)
    {
      InCovered(r.segs, i);
    }
    assert Covered(r.segs) == {};
  }

  /** What the receiver acknowledges after the first outstanding segment has arrived. */
  lemma FirstOutstandingArrives(y: System)
    requires Inv(y) && y.honest && y.sender.ost != []
    ensures Enabled(y, DeliverSegment(y.sender.ost[0].msg))
    ensures var o, r := y.sender.ost[0], y.receiver.reassembly;
            var t := Rx.Receive(y.receiver, o.msg);
            && t.isInit && t.isn == y.sender.isn && Good(t.reassembly, SentBytes(y.sender))
            && r.next <= t.reassembly.next
            && (Index(o.seqno) + |o.msg.payload| <= Max(r.next, Edge(r)) ==>
                  Index(o.seqno) + |o.msg.payload| <= t.reassembly.next)
            && (r.next == Edge(r) ==> t.reassembly.next == r.next)
            && (o.msg.fin ==> t.hasFin)
  {
    hide Wrap, Unwrap, Insert, Conserved, GoodSeg, SafeToWrite;
    var o, r := y.sender.ost[0], y.receiver;
    OutstandingIsTrue(y, o);
    assert Index(o.seqno) <= r.reassembly.next;
    SegmentInserted(y, o.msg);
    if o.msg.syn {
      InsertAdvances(r.reassembly, 0, o.msg.payload, o.msg.fin, SentBytes(y.sender));
    } else {
      UnwrapWrap(o.seqno, r.isn, r.maxAbsSeqno);
      InsertAdvances(r.reassembly, o.seqno - 1, o.msg.payload, o.msg.fin, SentBytes(y.sender));
    }
  }

  /** What a receiver in a state of the system acknowledges: the first missing byte, or one more when it counts FIN.
      */
  lemma AcknowledgedNumber(y: System)
    requires Inv(y) && y.receiver.isInit
    ensures var t, n := y.receiver, |SentBytes(y.sender)|;
            && t.reassembly.next <= n
            && Rx.AbsAckno(t) == t.reassembly.next + 1
                                 + (if CountsFinEarly(t) || (t.hasFin && t.reassembly.next == n) then 1 else 0)
            && (CountsFinEarly(t) ==> t.reassembly.next < n)
  {
    hide Wrap, Unwrap, SenderOk, SegmentsOk, AcksOk, Unclipped;
    if y.receiver.reassembly.next == |SentBytes(y.sender)| {
      NothingPendingAtEnd(y.receiver.reassembly, SentBytes(y.sender));
    }
  }

  /** After the round trip the sender takes the receiver's number, unless it was further already. */
  lemma OneRoundIs(y: System)
    requires Inv(y) && y.honest && y.sender.ost != []
    ensures var t := Next(y, DeliverSegment(y.sender.ost[0].msg));
            && Inv(t) && t.receiver.isInit
            && OneRound(y).sender.lastAckno == Max(y.sender.lastAckno, Rx.AbsAckno(t.receiver))
  {
    hide Wrap, Unwrap, Rx.Receive, Rx.AbsAckno, Conserved, Tiles, AcksOk, SegmentsOk;
    FirstOutstandingArrives(y);
    var t := Next(y, DeliverSegment(y.sender.ost[0].msg));
    OutstandingIsTrue(y, y.sender.ost[0]);
    DeliverSegmentInv(y, y.sender.ost[0].msg);
    ReplyArrives(t);
    AcknowledgesOnlySent(t);
    hide Inv, Good, ReplyDelivered;
  }

  /** Progress, FIN included: as long as replies have been honest, one round trip of the first outstanding segment
      acknowledges all of it exactly when the receiver has room for it or has it already, or counts FIN in place of
      the single byte it lacks. */
  lemma RoundAcknowledges(y: System)
    requires Inv(y) && y.honest && y.sender.ost != []
    ensures var o, r := y.sender.ost[0], y.receiver.reassembly;
            var end := Index(o.seqno) + |o.msg.payload|;
            OneRound(y).sender.lastAckno >= o.seqno + Length(o.msg)
            <==> o.msg.payload == [] || r.next < Edge(r) || end <= r.next
                 || (CountsFinEarly(Rx.Receive(y.receiver, o.msg)) && !o.msg.fin && end == r.next + 1)
  {
    var o := y.sender.ost[0];
    assert y.sender.lastAckno < o.seqno + Length(o.msg);
    hide Inv, Rx.Receive, Rx.AbsAckno, CountsFinEarly, OneRound, SentBytes, Wrap, Good;
    OutstandingIsTrue(y, o);
    FirstOutstandingArrives(y);
    OneRoundIs(y);
    AcknowledgedNumber(Next(y, DeliverSegment(o.msg)));
  }
}
