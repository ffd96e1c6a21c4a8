/** A message without acknowledgment number sends the sender back to the start: when later segments carry the wrong
    bytes after that, and when bytes are lost by it. */
module Rewinding {
  import opened Numbers
  import opened Messages
  import opened Wrapping
  import opened StreamModel
  import opened SenderModel
  import opened SenderTheory
  import Model = SenderModel
  import Tx = SenderTheory

  lemma RunTwo(s: Sender, e: Event, e': Event, rest: seq<Event>)
    ensures var first := Step(s, e);
            var second := Step(first.sender, e');
            Tx.Run(s, [e, e'] + rest)
            == Sent(Tx.Run(second.sender, rest).sender,
                    first.messages + second.messages + Tx.Run(second.sender, rest).messages)
  {
    hide Step;
    var first := Step(s, e);
    assert ([e, e'] + rest)[1..] == [e'] + rest && ([e'] + rest)[1..] == rest;
    assert Tx.Run(s, [e, e'] + rest).messages == first.messages + Tx.Run(first.sender, [e'] + rest).messages;
  }

  lemma LogTwo(s: Sender, e: Event, e': Event, rest: seq<Event>)
    ensures var t := Step(s, e).sender;
            RunLog(s, [e, e'] + rest)
            == Transmitted(s, e) + Transmitted(t, e') + RunLog(Step(t, e').sender, rest)
  {
    hide Step, Transmitted;
    var t := Step(s, e).sender;
    assert ([e, e'] + rest)[1..] == [e'] + rest && ([e'] + rest)[1..] == rest;
    assert RunLog(t, [e'] + rest) == Transmitted(t, e') + RunLog(Step(t, e').sender, rest);
  }

  /** Sent back to the start after `base` bytes, the sender numbers the next byte as if it were the first. */
  ghost predicate Slipped(s: Sender, base: nat) {
    && 0 < base && !s.finSent && !s.finAcked
    && s.expAckno + base == (if s.expAckno == 0 then 0 else 1) + s.input.removed
    && |s.input.history| <= base + s.input.capacity
  }

  /** Its FIN stands at a number that is not the end of the stream. */
  lemma SegmentSlips(s: Sender, room: nat, base: nat)
    requires Slipped(s, base) && s.input.closed && room > 0 && Unsent(s) > 0
    ensures var m := Segment(s, room);
            if m.fin then !Carries(m, s.expAckno, s.isn, s.input) else Slipped(AfterSegment(s, room), base)
  {
    hide Wrap, Unwrap;
  }

  lemma {:induction false} FillKeepsInput(s: Sender, room: nat)
    ensures var t := Fill(s, room).sender;
            && t.input.history == s.input.history && t.input.closed == s.input.closed
            && t.input.capacity == s.input.capacity && t.isn == s.isn && t.lastAckno == s.lastAckno
    decreases Unsent(s)
  {
    if Unsent(s) > 0 && room > 0 {
      SegmentProgress(s, room);
      SegmentEffect(s, room);
      FillStep(s, room);
      assert AfterSegment(s, room).input.capacity == s.input.capacity;
      hide Segment, AfterSegment, Unsent;
      FillKeepsInput(AfterSegment(s, room), room - Length(Segment(s, room)));
    }
  }

  /** One segment of the window. */
  lemma SlipStep(s: Sender, room: nat, base: nat)
    requires Slipped(s, base) && s.input.closed && room > 0
    ensures Unsent(s) > 0
    ensures var m, t := Segment(s, room), AfterSegment(s, room);
            && t.input.history == s.input.history && t.input.closed && t.isn == s.isn
            && t.expAckno == s.expAckno + Length(m)
            && (m.fin ==> !Carries(m, s.expAckno, s.isn, s.input)) && (!m.fin ==> Slipped(t, base))
  {
    assert Unsent(s) > 0;
    SegmentSlips(s, room, base);
    hide Carries, Slipped, Wrap;
  }

  /** Filling a window either sends that FIN or uses the whole window. */
  lemma {:induction false} FillSlips(s: Sender, room: nat, base: nat)
    requires Slipped(s, base) && s.input.closed
    ensures var t := Fill(s, room).sender;
            !AllCarry(FillLog(s, room), s.isn, s.input) || (Slipped(t, base) && t.expAckno == s.expAckno + room)
    decreases Unsent(s)
  {
    if room == 0 {
      FillDone(s, 0);
    } else {
      hide Slipped, Segment, AfterSegment, Unsent, Carries, Fill, FillLog, Length;
      SlipStep(s, room, base);
      SegmentProgress(s, room);
      FillStep(s, room);
      FillLogFirst(s, room);
      var m, t := Segment(s, room), AfterSegment(s, room);
      if !m.fin {
        FillSlips(t, room - Length(m), base);
        SameContent(FillLog(t, room - Length(m)), s.isn, s.input, t.input);
      }
    }
  }

  lemma FillLogFirst(s: Sender, room: nat)
    requires Unsent(s) > 0 && room > 0
    ensures 0 < Length(Segment(s, room)) <= room
    ensures FillLog(s, room) == [Outstanding(s.expAckno, Segment(s, room))]
                                + FillLog(AfterSegment(s, room), room - Length(Segment(s, room)))
    ensures Outstanding(s.expAckno, Segment(s, room)) in FillLog(s, room)
    ensures forall o :: o in FillLog(AfterSegment(s, room), room - Length(Segment(s, room))) ==> o in FillLog(s, room)
  {
    SegmentProgress(s, room);
    hide Segment, AfterSegment, Length, Unsent;
  }

  lemma SameContent(log: seq<Outstanding>, isn: u32, s: Stream, t: Stream)
    requires s.history == t.history && s.closed == t.closed
    ensures AllCarry(log, isn, s) <==> AllCarry(log, isn, t)
  {
    hide Wrap;
  }

  /** The acknowledgment of everything sent so far, offering the largest window. */
  function FullAck(s: Sender): Event {
    Ack(ReceiverMessage(Some(Wrap(s.expAckno, s.isn)), 0xffff, false))
  }

  lemma FullAckOpens(s: Sender, base: nat)
    requires Slipped(s, base) && s.input.capacity < 0x4000_0000_0000_0000
    requires s.lastAckno <= s.expAckno <= s.lastAckno + 0xffff
    ensures var u := Step(s, FullAck(s)).sender;
            && Slipped(u, base) && u.input == s.input && u.isn == s.isn
            && u.lastAckno == u.expAckno == s.expAckno && u.wnd == 0xffff
  {
    assert s.expAckno <= 1 + s.input.capacity;
    UnwrapWrap(s.expAckno, s.isn, s.lastAckno);
    hide Wrap, Unwrap;
  }

  lemma HarmlessTwo(s: Sender, e: Event, e': Event, rest: seq<Event>)
    requires Harmless(s, e) && Harmless(Step(s, e).sender, e')
    requires AllHarmless(Step(Step(s, e).sender, e').sender, rest)
    ensures AllHarmless(s, [e, e'] + rest)
  {
    hide Step, Harmless;
    var events := [e, e'] + rest;
    assert events[1..] == [e'] + rest && events[1..][1..] == rest;
    assert AllHarmless(Step(s, e).sender, events[1..]);
  }

  /** One acknowledgment and one push: either FIN goes out, at the wrong number, or a whole window does. */
  lemma AckAndPush(s: Sender, base: nat)
    requires Slipped(s, base) && s.input.closed && s.input.capacity < 0x4000_0000_0000_0000
    requires s.lastAckno <= s.expAckno <= s.lastAckno + 0xffff
    ensures var u := Step(s, FullAck(s)).sender;
            var v := Step(u, PushEvent).sender;
            && Harmless(s, FullAck(s)) && Harmless(u, PushEvent)
            && v.input.closed && v.input.history == s.input.history && v.input.capacity == s.input.capacity
            && v.isn == s.isn && v.lastAckno == s.expAckno
            && (!AllCarry(Transmitted(u, PushEvent), s.isn, s.input)
                || (Slipped(v, base) && v.expAckno == s.expAckno + 0xffff))
  {
    FullAckOpens(s, base);
    var u := Step(s, FullAck(s)).sender;
    FillSlips(u, 0xffff, base);
    FillKeepsInput(u, 0xffff);
    hide Slipped, Carries, Fill, FillLog;
  }

  lemma CarryAppend(a: seq<Outstanding>, b: seq<Outstanding>, c: seq<Outstanding>, isn: u32, input: Stream)
    requires AllCarry(a + b + c, isn, input)
    ensures AllCarry(b, isn, input) && AllCarry(c, isn, input)
  {
    hide Carries;
    forall o | o in b || o in c
      ensures o in a + b + c
    {
    }
  }

  /** Acknowledge and push until FIN is sent: it stands at a number that is not the end of the stream. */
  lemma {:induction false} SlippedSendsWrong(s: Sender, base: nat) returns (events: seq<Event>)
    requires Slipped(s, base) && s.input.closed && s.input.capacity < 0x4000_0000_0000_0000
    requires s.lastAckno <= s.expAckno <= s.lastAckno + 0xffff
    ensures AllHarmless(s, events) && !AllCarry(RunLog(s, events), s.isn, s.input)
    decreases 1 + s.input.capacity - s.expAckno
  {
    AckAndPush(s, base);
    assert s.expAckno <= 1 + s.input.capacity;
    hide Step, Transmitted, Carries, Slipped, FullAck, Harmless, AllHarmless, RunLog, AllCarry;
    var ack := FullAck(s);
    var u := Step(s, ack).sender;
    var v := Step(u, PushEvent).sender;
    var rest: seq<Event> := [];
    if AllCarry(Transmitted(u, PushEvent), s.isn, s.input) {
      rest := SlippedSendsWrong(v, base);
      SameContent(RunLog(v, rest), s.isn, s.input, v.input);
    } else {
      NothingHarmless(v);
    }
    events := [ack, PushEvent] + rest;
    HarmlessTwo(s, ack, PushEvent, rest);
    LogTwo(s, ack, PushEvent, rest);
    if AllCarry(RunLog(s, events), s.isn, s.input) {
      CarryAppend(Transmitted(s, ack), Transmitted(u, PushEvent), RunLog(v, rest), s.isn, s.input);
      assert false;
    }
  }

  lemma NothingHarmless(s: Sender)
    ensures AllHarmless(s, [])
  {
  }

  /** A harmful return to the start can always be continued to a segment with the wrong content. */
  lemma HarmfulRewind(s: Sender, window: u16) returns (events: seq<Event>)
    requires Structured(s) && Conserved(s) && s.input.removed > 0 && !s.finSent
    requires s.input.capacity < 0x4000_0000_0000_0000
    ensures var t := Receive(s, ReceiverMessage(None, window, false));
            AllHarmless(t, events) && !AllCarry(RunLog(t, events), t.isn, Tx.Run(t, events).sender.input)
  {
    var t := Receive(s, ReceiverMessage(None, window, false));
    var u := Step(t, CloseInput).sender;
    var rest := SlippedSendsWrong(u, s.input.removed);
    events := [CloseInput] + rest;
    assert events[1..] == rest;
    assert RunLog(t, events) == [] + RunLog(u, rest);
    RunKeepsClosed(u, rest);
    SameContent(RunLog(u, rest), t.isn, u.input, Tx.Run(u, rest).sender.input);
  }

  lemma StepKeepsClosed(s: Sender, e: Event)
    requires s.input.closed
    ensures var t := Step(s, e).sender;
            t.input.closed && t.input.history == s.input.history
  {
    hide Fill, Wrap, Unwrap, Acknowledge, Grow, U64;
    if e.PushEvent? && !s.finAcked && s.lastAckno + Effective(s.wnd) > s.expAckno {
      FillKeepsInput(s, s.lastAckno + Effective(s.wnd) - s.expAckno);
    }
  }

  lemma {:induction false} RunKeepsClosed(s: Sender, events: seq<Event>)
    requires s.input.closed
    ensures var t := Tx.Run(s, events).sender;
            t.input.closed && t.input.history == s.input.history
    decreases |events|
  {
    hide Step;
    if events != [] {
      StepKeepsClosed(s, events[0]);
      RunKeepsClosed(Step(s, events[0]).sender, events[1..]);
    }
  }

  /** After any run in which going back to the start did no harm, one more message without acknowledgment number is
      harmless exactly before any byte or after FIN has been sent: then, and only then, however the run goes on
      without harm, every later segment carries what its number stands for. */
  lemma RewindHarmlessIff(capacity: nat, isn: u32, initialRto: u64, before: seq<Event>, window: u16)
    requires capacity < 0x4000_0000_0000_0000
    requires AllHarmless(NewSender(capacity, isn, initialRto), before)
    ensures var s := Tx.Run(NewSender(capacity, isn, initialRto), before).sender;
            var t := Receive(s, ReceiverMessage(None, window, false));
            s.input.removed == 0 || s.finSent
            <==> forall events :: AllHarmless(t, events) ==>
                   AllCarry(RunLog(t, events), t.isn, Tx.Run(t, events).sender.input)
  {
    NewSenderSound(capacity, isn, initialRto);
    RunSound(NewSender(capacity, isn, initialRto), before);
    var s := Tx.Run(NewSender(capacity, isn, initialRto), before).sender;
    var rewind := Ack(ReceiverMessage(None, window, false));
    var t := Step(s, rewind).sender;
    hide Tx.Run, RunLog, AllHarmless, AllCarry, Conserved, Structured;
    if s.input.removed == 0 || s.finSent {
      StepSound(s, rewind);
      forall events | AllHarmless(t, events)
        ensures AllCarry(RunLog(t, events), t.isn, Tx.Run(t, events).sender.input)
      {
        RunSound(t, events);
      }
    } else {
      var events := HarmfulRewind(s, window);
    }
  }

  /** A sender at the start with one byte in its input sends SYN and that byte. */
  lemma PushOneByte(s: Sender, b: byte)
    requires s.expAckno == 0 && s.lastAckno == 0 && s.wnd == 10 && !s.finAcked && !s.finSent
    requires Buffer(s.input) == [b] && !s.input.closed && !s.input.error
    ensures Segment(s, 10) == SenderMessage(s.isn, true, [b], false, false)
    ensures Model.Push(s) == Sent(AfterSegment(s, 10), [SenderMessage(s.isn, true, [b], false, false)])
    ensures AfterSegment(s, 10).input == Pop(s.input, 1) && !AfterSegment(s, 10).finAcked
    ensures AfterSegment(s, 10).isn == s.isn && !AfterSegment(s, 10).finSent
  {
    var t := AfterSegment(s, 10);
    assert Segment(s, 10) == SenderMessage(s.isn, true, [b], false, false);
    FillStep(s, 10);
    assert Unsent(t) == 0 && Fill(t, 8) == Sent(t, []);
  }

  /** Rewound, a sender that has sent one byte is at the start again with only the next byte in its input. */
  lemma RewindThenWrite(s: Sender, x: byte, y: byte)
    requires s.input == StreamState(10, [x], 1, 1, false, false) && !s.finAcked && !s.finSent
    ensures var t := Receive(s, ReceiverMessage(None, 10, false));
            var u := Step(t, Write([y])).sender;
            && u.expAckno == 0 && u.lastAckno == 0 && u.wnd == 10 && !u.finAcked && !u.finSent && u.isn == s.isn
            && Buffer(u.input) == [y] && !u.input.closed && !u.input.error
  {
    assert [x] + [y] == [x, y] && [x, y][1..] == [y];
  }

  /** Why the condition is there: after SYN and the byte x have been sent, a message without
      acknowledgment number makes the next byte y travel with SYN, as if it were the first of the stream. */
  lemma RewindLosesBytes(isn: u32, x: byte, y: byte)
    ensures var window := Ack(ReceiverMessage(None, 10, false));
            var t := Tx.Run(NewSender(10, isn, 1000), [window, Write([x]), PushEvent, window, Write([y]), PushEvent]);
            t.messages == [SenderMessage(isn, true, [x], false, false), SenderMessage(isn, true, [y], false, false)]
  {
    var s0 := NewSender(10, isn, 1000);
    var window := Ack(ReceiverMessage(None, 10, false));
    var s1 := s0.(wnd := 10, input := s0.input.(history := [x]));
    assert Step(s0, window).sender == s0.(wnd := 10);
    PushOneByte(s1, x);
    hide Fill, MapInsert, Segment, AfterSegment, Receive;
    var s2 := AfterSegment(s1, 10);
    var s3 := Receive(s2, window.msg);
    RewindThenWrite(s2, x, y);
    PushOneByte(Step(s3, Write([y])).sender, y);
    RunTwo(s3, Write([y]), PushEvent, []);
    RunTwo(s1, PushEvent, window, [Write([y]), PushEvent]);
    RunTwo(s0, window, Write([x]), [PushEvent, window, Write([y]), PushEvent]);
    assert [window, Write([x]), PushEvent, window, Write([y]), PushEvent]
        == [window, Write([x])] + [PushEvent, window, Write([y]), PushEvent];
    assert [PushEvent, window, Write([y]), PushEvent] == [PushEvent, window] + [Write([y]), PushEvent];
    assert [Write([y]), PushEvent] == [Write([y]), PushEvent] + [];
  }

  // ----- lost bytes -----

  /** Byte i of the input has not been sent, or is kept for sending again. */
  ghost predicate Held(s: Sender, i: nat) {
    i >= s.input.removed
    || exists o :: o in s.ost && Index(o.seqno) <= i < Index(o.seqno) + |o.msg.payload|
  }

  /** Every byte of the input lies below the acknowledgment, or has not been sent, or is kept. */
  ghost predicate NothingLost(s: Sender, ackno: nat) {
    forall i: nat :: i < |s.input.history| ==> i < Index(ackno) || Held(s, i)
  }

  lemma {:induction false} TilesCover(ost: seq<Outstanding>, lo: nat, hi: nat, n: nat) returns (o: Outstanding)
    requires Tiles(ost, lo, hi) && lo <= n < hi
    ensures o in ost && o.seqno <= n < o.seqno + Length(o.msg)
  {
    if n < lo + Length(ost[0].msg) {
      o := ost[0];
    } else {
      o := TilesCover(ost[1..], lo + Length(ost[0].msg), hi, n);
    }
  }

  /** A sender that has not lost count holds every byte that is not acknowledged. */
  lemma AllHeld(s: Sender)
    requires Structured(s) && Conserved(s)
    ensures NothingLost(s, s.lastAckno)
  {
    hide Wrap, Unwrap;
    forall i: nat | i < |s.input.history| && Index(s.lastAckno) <= i < s.input.removed
      ensures Held(s, i)
    {
      var o := TilesCover(s.ost, s.ost[0].seqno, s.expAckno, i + 1);
      assert Carries(o.msg, o.seqno, s.isn, s.input);
      assert Index(o.seqno) <= i < Index(o.seqno) + |o.msg.payload|;
    }
  }

  /** Until it goes mute a sender's acknowledgment never takes back a byte. */
  lemma AckIndexGrows(s: Sender, e: Event)
    requires Structured(s) && Conserved(s) && Harmless(s, e)
    ensures var t := Step(s, e).sender;
            Mute(t) || Index(s.lastAckno) <= Index(t.lastAckno)
  {
    assert s.lastAckno <= s.expAckno;
    hide Wrap, Unwrap, Fill, Acknowledge, Structured;
    if e.PushEvent? && !s.finAcked && s.lastAckno + Effective(s.wnd) > s.expAckno {
      FillKeepsInput(s, s.lastAckno + Effective(s.wnd) - s.expAckno);
    } else if Rewinds(e) && s.finSent {
      RewindMutes(s, e.msg.window);
    }
  }

  /** When a message without acknowledgment number loses bytes. After any run in which going back did no harm to later
      segments, nothing is lost so far, and one more such message loses nothing exactly when everything sent is
      acknowledged. A sender that is mute has nothing left to lose. */
  lemma RewindLosesIff(capacity: nat, isn: u32, initialRto: u64, before: seq<Event>, window: u16)
    requires AllHarmless(NewSender(capacity, isn, initialRto), before)
    ensures var s := Tx.Run(NewSender(capacity, isn, initialRto), before).sender;
            var t := Receive(s, ReceiverMessage(None, window, false));
            if Mute(s) then forall k :: NothingLost(t, k) <==> NothingLost(s, k)
            else NothingLost(s, s.lastAckno)
                 && (NothingLost(t, s.lastAckno) <==> s.input.removed <= Index(s.lastAckno))
  {
    NewSenderSound(capacity, isn, initialRto);
    RunSound(NewSender(capacity, isn, initialRto), before);
    var s := Tx.Run(NewSender(capacity, isn, initialRto), before).sender;
    RewindDrops(s, window);
    hide Tx.Run, AllHarmless, NothingLost, Structured, Conserved, Receive;
    if !Mute(s) {
      AllHeld(s);
    }
  }

  lemma RewindDrops(s: Sender, window: u16)
    ensures var t := Receive(s, ReceiverMessage(None, window, false));
            && (NothingLost(t, s.lastAckno) <==> s.input.removed <= Index(s.lastAckno))
            && (s.ost == [] ==> forall k :: NothingLost(t, k) <==> NothingLost(s, k))
  {
    var t := Receive(s, ReceiverMessage(None, window, false));
    assert t.input == s.input && t.ost == [];
    hide Receive;
    if Index(s.lastAckno) < s.input.removed {
      assert !Held(t, Index(s.lastAckno));
    }
    forall i: nat
      ensures Held(t, i) <==> i >= s.input.removed
      ensures s.ost == [] ==> (Held(s, i) <==> i >= s.input.removed)
    {
    }
    if s.ost == [] {
      forall k
        ensures NothingLost(t, k) <==> NothingLost(s, k)
      {
        assert forall i: nat :: Held(t, i) <==> Held(s, i);
      }
    }
  }

  lemma {:induction false} MuteForever(s: Sender, events: seq<Event>)
    requires Mute(s)
    ensures RunLog(s, events) == []
    decreases |events|
  {
    hide Step, Transmitted, Mute;
    if events != [] {
      MuteStays(s, events[0]);
      MuteForever(Step(s, events[0]).sender, events[1..]);
    }
  }

  /** SYN, the byte x and FIN are sent in one segment. */
  lemma PushAllAtOnce(s: Sender, x: byte)
    requires s.expAckno == 0 && s.lastAckno == 0 && s.wnd == 10 && !s.finAcked && !s.finSent && s.ost == []
    requires Buffer(s.input) == [x] && s.input.closed && !s.input.error
    ensures var m := SenderMessage(s.isn, true, [x], true, false);
            && Model.Push(s) == Sent(AfterSegment(s, 10), [m])
            && AfterSegment(s, 10).ost == [Outstanding(0, m)] && AfterSegment(s, 10).finSent
            && AfterSegment(s, 10).input == Pop(s.input, 1) && AfterSegment(s, 10).lastAckno == 0
  {
    var m := SenderMessage(s.isn, true, [x], true, false);
    assert Segment(s, 10) == m;
    FillStep(s, 10);
    FillDone(AfterSegment(s, 10), 7);
  }

  /** Why the condition is there: SYN, the byte x and FIN have been sent and nothing is acknowledged. A message
      without acknowledgment number, harmless to later segments because there are none, makes the sender drop the
      byte and never transmit again. */
  lemma RewindAfterFinLosesByte(isn: u32, x: byte, more: seq<Event>)
    ensures var window := Ack(ReceiverMessage(None, 10, false));
            var start, events := NewSender(10, isn, 1000), [window, Write([x]), CloseInput, PushEvent];
            var s := Tx.Run(start, events).sender;
            var t := Step(s, window).sender;
            && AllHarmless(start, events) && Harmless(s, window)
            && s.ost == [Outstanding(0, SenderMessage(isn, true, [x], true, false))] && s.lastAckno == 0
            && t.input.history == [x] && !NothingLost(t, s.lastAckno) && RunLog(t, more) == []
  {
    var window := Ack(ReceiverMessage(None, 10, false));
    var start, events := NewSender(10, isn, 1000), [window, Write([x]), CloseInput, PushEvent];
    var s1 := start.(wnd := 10);
    var s2 := s1.(input := s1.input.(history := [x]));
    var s3 := s2.(input := s2.input.(closed := true));
    assert Step(start, window).sender == s1;
    assert Step(s1, Write([x])).sender == s2 by {
      assert StreamModel.Push(s1.input, [x]).history == [x];
    }
    assert Step(s2, CloseInput).sender == s3;
    PushAllAtOnce(s3, x);
    var s := AfterSegment(s3, 10);
    RunFour(start, window, Write([x]), CloseInput, PushEvent);
    RewindDrops(s, 10);
    RewindMutes(s, 10);
    MuteForever(Step(s, window).sender, more);
  }

  lemma RunFour(s: Sender, a: Event, b: Event, c: Event, d: Event)
    ensures var s1 := Step(s, a).sender;
            var s2 := Step(s1, b).sender;
            var s3 := Step(s2, c).sender;
            && Tx.Run(s, [a, b, c, d]).sender == Step(s3, d).sender
            && (Harmless(s, a) && Harmless(s1, b) && Harmless(s2, c) && Harmless(s3, d) ==>
                  AllHarmless(s, [a, b, c, d]))
  {
    hide Step, Harmless;
    RunTwo(s, a, b, [c, d]);
    var s2 := Step(Step(s, a).sender, b).sender;
    RunTwo(s2, c, d, []);
    assert [a, b, c, d] == [a, b] + [c, d] && [c, d] == [c, d] + [];
    var s3 := Step(s2, c).sender;
    if Harmless(s, a) && Harmless(Step(s, a).sender, b) && Harmless(s2, c) && Harmless(s3, d) {
      NothingHarmless(Step(s3, d).sender);
      HarmlessTwo(s2, c, d, []);
      HarmlessTwo(s, a, b, [c, d]);
    }
  }
}
