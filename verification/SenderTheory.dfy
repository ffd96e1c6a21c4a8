/** What every run of the sender keeps: the outstanding segments tile what is in flight, and every
    transmitted segment carries the slice of the input that its sequence number stands for. */
module SenderTheory {
  import opened Numbers
  import opened Messages
  import opened Wrapping
  import opened StreamModel
  import opened SenderModel
  import Model = SenderModel

  // ----- structure -----

  /** The segments are non-empty and cover [lo, hi) without gap or overlap. */
  ghost predicate Tiles(ost: seq<Outstanding>, lo: nat, hi: nat) {
    if ost == [] then lo == hi
    else ost[0].seqno == lo && Length(ost[0].msg) > 0 && Tiles(ost[1..], lo + Length(ost[0].msg), hi)
  }

  /** Outstanding segments tile up to the first unsent number, the first of them contains the first
      unacknowledged number, and the timer runs exactly when there is one. */
  ghost predicate Structured(s: Sender) {
    && s.lastAckno <= s.expAckno
    && (s.ost == [] ==> s.lastAckno == s.expAckno)
    && (s.ost != [] ==>
          && Tiles(s.ost, s.ost[0].seqno, s.expAckno)
          && s.ost[0].seqno <= s.lastAckno < s.ost[0].seqno + Length(s.ost[0].msg))
    && (s.timer.running <==> s.ost != [])
  }

  lemma {:induction false} TilesBounds(ost: seq<Outstanding>, lo: nat, hi: nat)
    requires Tiles(ost, lo, hi)
    ensures lo <= hi && (ost != [] ==> lo + Length(ost[0].msg) <= hi)
    ensures forall o :: o in ost ==> lo <= o.seqno < hi && o.seqno + Length(o.msg) <= hi
  {
    if ost != [] {
      TilesBounds(ost[1..], lo + Length(ost[0].msg), hi);
    }
  }

  /** Behind a tiling, map insertion appends. */
  lemma {:induction false} TilesAppend(ost: seq<Outstanding>, lo: nat, hi: nat, m: SenderMessage)
    requires Tiles(ost, lo, hi) && Length(m) > 0
    ensures MapInsert(ost, Outstanding(hi, m)) == ost + [Outstanding(hi, m)]
    ensures Tiles(ost + [Outstanding(hi, m)], lo, hi + Length(m))
  {
    var o := Outstanding(hi, m);
    if ost == [] {
      assert [o][1..] == [];
    } else {
      TilesBounds(ost, lo, hi);
      TilesAppend(ost[1..], lo + Length(ost[0].msg), hi, m);
      assert (ost + [o])[1..] == ost[1..] + [o];
    }
  }

  lemma {:induction false} AcknowledgeTiles(ost: seq<Outstanding>, lo: nat, hi: nat, ackno: nat)
    requires Tiles(ost, lo, hi) && lo <= ackno <= hi
    ensures var left := Acknowledge(ost, ackno);
            if left == [] then ackno == hi
            else Tiles(left, left[0].seqno, hi) && left[0].seqno <= ackno < left[0].seqno + Length(left[0].msg)
    ensures forall o :: o in Acknowledge(ost, ackno) ==> o in ost
  {
    if ost != [] && ost[0].seqno + Length(ost[0].msg) <= ackno {
      AcknowledgeTiles(ost[1..], lo + Length(ost[0].msg), hi, ackno);
    }
  }

  lemma SegmentStructured(s: Sender, room: nat)
    requires Structured(s) && room > 0 && Unsent(s) > 0
    ensures Structured(AfterSegment(s, room))
    ensures AfterSegment(s, room).ost == s.ost + [Outstanding(s.expAckno, Segment(s, room))]
  {
    SegmentProgress(s, room);
    TilesAppend(s.ost, if s.ost == [] then s.expAckno else s.ost[0].seqno, s.expAckno, Segment(s, room));
  }

  lemma {:induction false} FillStructured(s: Sender, room: nat)
    requires Structured(s)
    ensures Structured(Fill(s, room).sender)
    decreases Unsent(s)
  {
    if Unsent(s) > 0 && room > 0 {
      SegmentProgress(s, room);
      SegmentStructured(s, room);
      FillStructured(AfterSegment(s, room), room - Length(Segment(s, room)));
    }
  }

  lemma AckStructured(s: Sender, ackno: nat, window: u16)
    requires s.lastAckno <= s.expAckno && (s.ost == [] ==> s.lastAckno == s.expAckno)
    requires s.ost != [] ==> Structured(s)
    ensures ackno <= s.expAckno ==> Structured(ReceiveAck(s, ackno, window))
    ensures forall o :: o in ReceiveAck(s, ackno, window).ost ==> o in s.ost
  {
    if s.ost != [] && s.lastAckno < ackno <= s.expAckno {
      AcknowledgeTiles(s.ost, s.ost[0].seqno, s.expAckno, ackno);
    }
  }

  // ----- runs -----

  datatype Event = Write(data: seq<byte>) | CloseInput | PushEvent | Ack(msg: ReceiverMessage) | TickEvent(ms: u64)

  function Step(s: Sender, e: Event): Sent {
    match e
    case Write(data) => Sent(s.(input := StreamModel.Push(s.input, data)), [])
    case CloseInput => Sent(s.(input := Close(s.input)), [])
    case PushEvent => Model.Push(s)
    case Ack(msg) => Sent(Receive(s, msg), [])
    case TickEvent(ms) => Tick(s, ms)
  }

  function Run(s: Sender, events: seq<Event>): Sent
    decreases |events|
  {
    if events == [] then Sent(s, [])
    else
      var first := Step(s, events[0]);
      var rest := Run(first.sender, events[1..]);
      Sent(rest.sender, first.messages + rest.messages)
  }

  lemma StepStructured(s: Sender, e: Event)
    requires Structured(s)
    ensures Structured(Step(s, e).sender)
  {
    hide Wrap, Unwrap;
    match e
    case Write(data) =>
    case CloseInput =>
    case PushEvent =>
      if s.lastAckno + Effective(s.wnd) > s.expAckno {
        FillStructured(s, s.lastAckno + Effective(s.wnd) - s.expAckno);
      }
    case Ack(msg) =>
      if !msg.rst {
        match msg.ackno
        case None => AckStructured(Rewind(s, msg.window), 0, msg.window);
        case Some(raw) => AckStructured(s, Unwrap(raw, s.isn, U64(s.lastAckno)), msg.window);
      }
    case TickEvent(ms) =>
  }

  lemma {:induction false} RunKeepsStructure(s: Sender, events: seq<Event>)
    requires Structured(s)
    ensures Structured(Run(s, events).sender)
    decreases |events|
  {
    if events != [] {
      StepStructured(s, events[0]);
      RunKeepsStructure(Step(s, events[0]).sender, events[1..]);
    }
  }

  /** Every run of a new sender leaves it structured, whatever the peer sends. */
  lemma RunStructured(capacity: nat, isn: u32, initialRto: u64, events: seq<Event>)
    ensures Structured(Run(NewSender(capacity, isn, initialRto), events).sender)
  {
    RunKeepsStructure(NewSender(capacity, isn, initialRto), events);
  }

  /** Given the structure, an expiry always finds an outstanding segment, and what is sent again contains
      the first unacknowledged number. Nothing outstanding is exactly nothing in flight. */
  lemma TickRetransmits(s: Sender, ms: u64)
    requires Structured(s)
    ensures s.ost == [] <==> InFlight(s) == 0
    ensures s.timer.running && Grow(s.timer, ms).expired ==>
              && s.ost != [] && Tick(s, ms).messages == [s.ost[0].msg]
              && s.ost[0].seqno <= s.lastAckno < s.ost[0].seqno + Length(s.ost[0].msg)
    ensures InFlight(s) == 0 ==> Tick(s, ms) == Sent(s, [])
  {
    if s.ost != [] {
      TilesBounds(s.ost, s.ost[0].seqno, s.expAckno);
    }
  }

  // ----- content -----

  /** Stream index of the first payload byte of a segment with absolute number a. */
  function Index(a: nat): nat {
    if a == 0 then 0 else a - 1
  }

  /** The segment is what absolute number a stands for in the stream: SYN at 0 only, the right slice of
      the input, FIN only where a closed input ends. */
  ghost predicate Carries(m: SenderMessage, a: nat, isn: u32, input: Stream) {
    && m.seqno == Wrap(a, isn)
    && (m.syn <==> a == 0)
    && Agrees(m.payload, Index(a), input.history)
    && (m.fin ==> input.closed && Index(a) + |m.payload| == |input.history|)
  }

  /** The first unsent number counts SYN, the bytes taken from the input and FIN, and every outstanding
      segment carries its slice. */
  ghost predicate Conserved(s: Sender) {
    && s.expAckno == (if s.expAckno == 0 then 0 else 1) + s.input.removed + (if s.finSent then 1 else 0)
    && s.input.popped == s.input.removed
    && (s.finSent ==> s.input.closed && Buffered(s.input) == 0)
    && (forall o :: o in s.ost ==> Carries(o.msg, o.seqno, s.isn, s.input))
  }

  /** The input only grows, and not at all once closed. */
  ghost predicate Extends(t: Stream, s: Stream) {
    && s.history <= t.history && t.capacity == s.capacity
    && (s.closed ==> t.closed && t.history == s.history)
  }

  lemma CarriesExtends(m: SenderMessage, a: nat, isn: u32, s: Stream, t: Stream)
    requires Carries(m, a, isn, s) && Extends(t, s)
    ensures Carries(m, a, isn, t)
  {
    hide Wrap, Unwrap;
    AgreesPrefix(m.payload, Index(a), s.history, t.history);
  }

  lemma SegmentCarries(s: Sender, room: nat)
    requires Conserved(s) && room > 0 && Unsent(s) > 0
    ensures Carries(Segment(s, room), s.expAckno, s.isn, s.input)
    ensures !s.finSent || s.expAckno == 0
  {
    hide Wrap, Unwrap;
    var m := Segment(s, room);
    if s.expAckno == 0 {
      WrapZero(s.isn);
    }
    assert s.input.removed == Index(s.expAckno);
    assert m.payload == s.input.history[s.input.removed..s.input.removed + |m.payload|];
  }

  /** One more segment keeps conservation. */
  lemma SegmentConserved(s: Sender, room: nat)
    requires Structured(s) && Conserved(s) && room > 0 && Unsent(s) > 0
    ensures Conserved(AfterSegment(s, room)) && Extends(AfterSegment(s, room).input, s.input)
  {
    hide Wrap, Unwrap;
    SegmentCarries(s, room);
    SegmentStructured(s, room);
    var t := AfterSegment(s, room);
    forall o | o in t.ost
      ensures Carries(o.msg, o.seqno, t.isn, t.input)
    {
      assert o in s.ost || o == Outstanding(s.expAckno, Segment(s, room));
      CarriesExtends(o.msg, o.seqno, s.isn, s.input, t.input);
    }
  }

  // ----- what is transmitted, under the numbers it is transmitted for -----

  function FillLog(s: Sender, room: nat): seq<Outstanding>
    decreases Unsent(s)
  {
    if Unsent(s) == 0 || room == 0 then []
    else
      SegmentProgress(s, room);
      [Outstanding(s.expAckno, Segment(s, room))]
      + FillLog(AfterSegment(s, room), room - Length(Segment(s, room)))
  }

  /** What an event transmits: new segments under the first unsent number, old ones under the number they are
      kept under. */
  function Transmitted(s: Sender, e: Event): seq<Outstanding> {
    match e
    case PushEvent =>
      if s.finAcked || s.lastAckno + Effective(s.wnd) <= s.expAckno then []
      else FillLog(s, s.lastAckno + Effective(s.wnd) - s.expAckno)
    case TickEvent(ms) => if Tick(s, ms).messages == [] || s.ost == [] then [] else [s.ost[0]]
    case _ => []
  }

  function RunLog(s: Sender, events: seq<Event>): seq<Outstanding>
    decreases |events|
  {
    if events == [] then []
    else Transmitted(s, events[0]) + RunLog(Step(s, events[0]).sender, events[1..])
  }

  function MessagesOf(log: seq<Outstanding>): seq<SenderMessage> {
    if log == [] then [] else [log[0].msg] + MessagesOf(log[1..])
  }

  lemma {:induction false} MessagesAppend(a: seq<Outstanding>, b: seq<Outstanding>)
    ensures MessagesOf(a + b) == MessagesOf(a) + MessagesOf(b)
  {
    if a == [] {
      assert a + b == b;
    } else {
      MessagesAppend(a[1..], b);
      assert (a + b)[1..] == a[1..] + b;
    }
  }

  lemma {:induction false} FillLogged(s: Sender, room: nat)
    ensures MessagesOf(FillLog(s, room)) == Fill(s, room).messages
    decreases Unsent(s)
  {
    hide Segment, AfterSegment, Length, Unsent;
    if Unsent(s) > 0 && room > 0 {
      SegmentProgress(s, room);
      FillStep(s, room);
      FillLogged(AfterSegment(s, room), room - Length(Segment(s, room)));
      MessagesAppend([Outstanding(s.expAckno, Segment(s, room))],
                     FillLog(AfterSegment(s, room), room - Length(Segment(s, room))));
    }
  }

  lemma StepLogged(s: Sender, e: Event)
    ensures MessagesOf(Transmitted(s, e)) == Step(s, e).messages
  {
    hide FillLog, Fill, Wrap, Unwrap, Receive;
    if e.PushEvent? && !s.finAcked && s.lastAckno + Effective(s.wnd) > s.expAckno {
      FillLogged(s, s.lastAckno + Effective(s.wnd) - s.expAckno);
    }
  }

  /** The log of a run lists its messages. */
  lemma {:induction false} RunLogged(s: Sender, events: seq<Event>)
    ensures MessagesOf(RunLog(s, events)) == Run(s, events).messages
    decreases |events|
  {
    hide Transmitted, Step;
    if events != [] {
      StepLogged(s, events[0]);
      RunLogged(Step(s, events[0]).sender, events[1..]);
      MessagesAppend(Transmitted(s, events[0]), RunLog(Step(s, events[0]).sender, events[1..]));
    }
  }

  /** Every logged segment is what its number stands for. */
  ghost predicate AllCarry(log: seq<Outstanding>, isn: u32, input: Stream) {
    forall o :: o in log ==> Carries(o.msg, o.seqno, isn, input)
  }

  lemma AllCarryExtends(log: seq<Outstanding>, isn: u32, s: Stream, t: Stream)
    requires AllCarry(log, isn, s) && Extends(t, s)
    ensures AllCarry(log, isn, t)
  {
    hide Wrap, Unwrap, Carries;
    forall o | o in log
      ensures Carries(o.msg, o.seqno, isn, t)
    {
      CarriesExtends(o.msg, o.seqno, isn, s, t);
    }
  }

  lemma {:induction false} FillConserved(s: Sender, room: nat)
    requires Structured(s) && Conserved(s)
    ensures var f := Fill(s, room);
            Conserved(f.sender) && f.sender.input.history == s.input.history && f.sender.input.closed == s.input.closed
            && f.sender.input.capacity == s.input.capacity
            && f.sender.isn == s.isn && AllCarry(FillLog(s, room), s.isn, s.input)
    decreases Unsent(s)
  {
    hide Wrap, Unwrap, Carries, Structured;
    if Unsent(s) > 0 && room > 0 {
      SegmentProgress(s, room);
      FillStep(s, room);
      SegmentStructured(s, room);
      SegmentConserved(s, room);
      SegmentCarries(s, room);
      var t := AfterSegment(s, room);
      FillConserved(t, room - Length(Segment(s, room)));
      AllCarryExtends(FillLog(t, room - Length(Segment(s, room))), s.isn, t.input, s.input);
    }
  }

  /** A message without acknowledgment number sends the sender back to the start. */
  predicate Rewinds(e: Event) {
    e.Ack? && !e.msg.rst && e.msg.ackno == None
  }

  /** Before any byte and FIN have been sent, going back to the start changes nothing that matters. */
  lemma RewindConserved(s: Sender, window: u16)
    requires Structured(s) && Conserved(s) && s.input.removed == 0 && !s.finSent
    ensures var t := Receive(s, ReceiverMessage(None, window, false));
            Conserved(t) && t.input == s.input && t.isn == s.isn
  {
  }

  /** Back at the start after FIN has been sent, the sender takes FIN for acknowledged. */
  ghost predicate Mute(s: Sender) {
    && s.finSent && s.finAcked && s.input.closed && Buffered(s.input) == 0
    && s.lastAckno == 0 && s.expAckno == 0 && s.ost == [] && !s.timer.running
  }

  lemma RewindMutes(s: Sender, window: u16)
    requires s.finSent && s.input.closed && Buffered(s.input) == 0
    ensures var t := Receive(s, ReceiverMessage(None, window, false));
            Mute(t) && t.input == s.input && t.isn == s.isn
  {
  }

  /** From then on it never says anything. */
  lemma MuteStays(s: Sender, e: Event)
    requires Mute(s)
    ensures var t := Step(s, e).sender;
            Mute(t) && Transmitted(s, e) == [] && Extends(t.input, s.input) && t.isn == s.isn
  {
    hide Wrap, Unwrap, Fill, FillLog;
  }

  lemma AckConserved(s: Sender, ackno: nat, window: u16)
    requires Structured(s) && Conserved(s)
    ensures var t := ReceiveAck(s, ackno, window);
            Conserved(t) && t.input == s.input && t.isn == s.isn
  {
    hide Wrap, Unwrap;
    if ackno <= s.expAckno {
      AckStructured(s, ackno, window);
    }
  }

  /** The application may write to the input or close it at any time. */
  lemma InputGrows(s: Sender, input: Stream)
    requires Conserved(s) && Extends(input, s.input)
    requires input.removed == s.input.removed && input.popped == s.input.popped
    ensures Conserved(s.(input := input))
  {
    hide Wrap, Unwrap;
    forall o | o in s.ost
      ensures Carries(o.msg, o.seqno, s.isn, input)
    {
      CarriesExtends(o.msg, o.seqno, s.isn, s.input, input);
    }
  }

  lemma PushConserved(s: Sender)
    requires Structured(s) && Conserved(s)
    ensures var t := Step(s, PushEvent).sender;
            Conserved(t) && Extends(t.input, s.input) && t.isn == s.isn
            && AllCarry(Transmitted(s, PushEvent), s.isn, t.input)
  {
    hide Wrap, Unwrap, Fill, FillLog, Carries, Structured, Conserved;
    if !s.finAcked && s.lastAckno + Effective(s.wnd) > s.expAckno {
      FillConserved(s, s.lastAckno + Effective(s.wnd) - s.expAckno);
      AllCarryExtends(Transmitted(s, PushEvent), s.isn, s.input, Step(s, PushEvent).sender.input);
    }
  }

  lemma TickConserved(s: Sender, ms: u64)
    requires Structured(s) && Conserved(s)
    ensures var t := Step(s, TickEvent(ms)).sender;
            Conserved(t) && t.input == s.input && t.isn == s.isn
            && AllCarry(Transmitted(s, TickEvent(ms)), s.isn, t.input)
  {
    hide Wrap, Unwrap, Carries, Structured;
  }

  lemma StepConserved(s: Sender, e: Event)
    requires Structured(s) && Conserved(s) && (Rewinds(e) ==> s.input.removed == 0 && !s.finSent)
    ensures var t := Step(s, e).sender;
            Conserved(t) && Extends(t.input, s.input) && t.isn == s.isn
            && AllCarry(Transmitted(s, e), s.isn, t.input)
  {
    hide Wrap, Unwrap, Fill, FillLog, ReceiveAck, Carries, Structured, Conserved, Tick, Model.Push;
    match e
    case Write(data) => InputGrows(s, StreamModel.Push(s.input, data));
    case CloseInput => InputGrows(s, Close(s.input));
    case PushEvent => PushConserved(s);
    case Ack(msg) =>
      if msg.rst {
        InputGrows(s, SetError(s.input));
      } else {
        match msg.ackno
        case None => RewindConserved(s, msg.window);
        case Some(raw) => AckConserved(s, Unwrap(raw, s.isn, U64(s.lastAckno)), msg.window);
      }
    case TickEvent(ms) => TickConserved(s, ms);
  }

  /** What every segment's content rests on: the count is right, or nothing will be sent any more. */
  ghost predicate Sound(s: Sender) {
    Structured(s) && (Conserved(s) || Mute(s))
  }

  /** Going back to the start puts later segments at the wrong place when a byte has been sent but not yet FIN. */
  predicate Harmless(s: Sender, e: Event) {
    Rewinds(e) ==> s.input.removed == 0 || s.finSent
  }

  lemma StepSound(s: Sender, e: Event)
    requires Sound(s) && Harmless(s, e)
    ensures var t := Step(s, e).sender;
            Sound(t) && Extends(t.input, s.input) && t.isn == s.isn && AllCarry(Transmitted(s, e), s.isn, t.input)
  {
    StepStructured(s, e);
    hide Structured;
    if Mute(s) {
      MuteStays(s, e);
    } else if Rewinds(e) && s.finSent {
      RewindMutes(s, e.msg.window);
    } else {
      StepConserved(s, e);
    }
  }

  predicate AllHarmless(s: Sender, events: seq<Event>)
    decreases |events|
  {
    events == [] || (Harmless(s, events[0]) && AllHarmless(Step(s, events[0]).sender, events[1..]))
  }

  lemma {:induction false} RunSound(s: Sender, events: seq<Event>)
    requires Sound(s) && AllHarmless(s, events)
    ensures var t := Run(s, events).sender;
            Sound(t) && Extends(t.input, s.input) && t.isn == s.isn && AllCarry(RunLog(s, events), s.isn, t.input)
    decreases |events|
  {
    if events != [] {
      hide Sound, Harmless, Step, Transmitted;
      StepSound(s, events[0]);
      var t := Step(s, events[0]).sender;
      RunSound(t, events[1..]);
      AllCarryExtends(Transmitted(s, events[0]), s.isn, t.input, Run(s, events).sender.input);
      hide Carries;
    }
  }

  lemma NewSenderSound(capacity: nat, isn: u32, initialRto: u64)
    ensures Sound(NewSender(capacity, isn, initialRto))
  {
  }

  /** Content conservation over the runs of a new sender. If messages without acknowledgment number arrive only
      before any byte or after FIN has been sent, every segment ever transmitted, for the first time or again, carries
      exactly the slice of the input that the absolute number it is sent under stands for, and FIN only at the end
      of it. The first unsent number is 0 at the start, and else counts SYN, the bytes taken and FIN. */
  lemma RunConserved(capacity: nat, isn: u32, initialRto: u64, events: seq<Event>)
    requires AllHarmless(NewSender(capacity, isn, initialRto), events)
    ensures var s := NewSender(capacity, isn, initialRto);
            var t := Run(s, events).sender;
            && MessagesOf(RunLog(s, events)) == Run(s, events).messages
            && AllCarry(RunLog(s, events), isn, t.input)
            && (t.expAckno == 0 || t.expAckno == 1 + t.input.removed + (if t.finSent then 1 else 0))
  {
    NewSenderSound(capacity, isn, initialRto);
    RunSound(NewSender(capacity, isn, initialRto), events);
    RunLogged(NewSender(capacity, isn, initialRto), events);
  }

  // ----- window filling -----

  function TotalLength(messages: seq<SenderMessage>): nat {
    if messages == [] then 0 else Length(messages[0]) + TotalLength(messages[1..])
  }

  /** A segment with less than a full payload uses up the room, or leaves nothing to send. */
  lemma ShortIsLast(s: Sender, room: nat)
    requires room > 0 && Unsent(s) > 0
    ensures |Segment(s, room).payload| == MAX_PAYLOAD_SIZE
            || Length(Segment(s, room)) == room || Unsent(AfterSegment(s, room)) == 0
  {
  }

  /** All but the last carry a full payload. */
  ghost predicate FullButLast(messages: seq<SenderMessage>) {
    forall k :: 0 <= k < |messages| - 1 ==> |messages[k].payload| == 1000
  }

  lemma {:induction false} FillFull(s: Sender, room: nat)
    ensures FullButLast(Fill(s, room).messages)
    decreases Unsent(s)
  {
    hide Segment, AfterSegment, Length, Unsent;
    if Unsent(s) > 0 && room > 0 {
      SegmentProgress(s, room);
      FillStep(s, room);
      ShortIsLast(s, room);
      var t, left := AfterSegment(s, room), room - Length(Segment(s, room));
      FillFull(t, left);
      if Unsent(t) == 0 || left == 0 {
        FillDone(t, left);
      }
    }
  }

  lemma {:induction false} FillWindow(s: Sender, room: nat)
    ensures var f := Fill(s, room);
            && f.sender.expAckno == s.expAckno + TotalLength(f.messages) <= s.expAckno + room
            && (f.sender.expAckno == s.expAckno + room || Unsent(f.sender) == 0)
            && (forall m :: m in f.messages ==> Length(m) > 0 && |m.payload| <= MAX_PAYLOAD_SIZE)
            && (f.sender.input.closed <==> s.input.closed) && f.sender.lastAckno == s.lastAckno
    decreases Unsent(s)
  {
    hide Segment, AfterSegment, Length, Unsent;
    if Unsent(s) > 0 && room > 0 {
      SegmentProgress(s, room);
      SegmentEffect(s, room);
      FillStep(s, room);
      FillWindow(AfterSegment(s, room), room - Length(Segment(s, room)));
    }
  }

  /** push sends only non-empty segments, all but the last with 1000 payload bytes and none with more, never at or
      past the window (a zero window counting as one), and sends all it can: unless FIN was acknowledged, afterwards
      the window is full, or SYN has been sent, the input is empty, and FIN has been sent if the input is closed. */
  lemma PushMaximal(s: Sender)
    ensures var p := Model.Push(s);
            var limit := s.lastAckno + (if s.wnd == 0 then 1 else s.wnd);
            && (forall m :: m in p.messages ==> 0 < Length(m) && |m.payload| <= 1000)
            && FullButLast(p.messages)
            && p.sender.expAckno == s.expAckno + TotalLength(p.messages)
            && p.sender.expAckno <= Max(s.expAckno, limit)
            && (s.finAcked || limit <= p.sender.expAckno
                || (p.sender.expAckno > 0 && Buffered(p.sender.input) == 0
                    && (p.sender.input.closed ==> p.sender.finSent)))
  {
    hide Fill, Length;
    if !s.finAcked && s.lastAckno + Effective(s.wnd) > s.expAckno {
      FillWindow(s, s.lastAckno + Effective(s.wnd) - s.expAckno);
      FillFull(s, s.lastAckno + Effective(s.wnd) - s.expAckno);
    }
  }

  // ----- the window -----

  /** Where a message with acknowledgment number k (the nearest number it can stand for) leaves the window: its right
      edge is that of this message, unless the message is impossible or its edge is already acknowledged. */
  lemma AckSetsEdge(s: Sender, raw: u32, window: u16)
    ensures var k := Unwrap(raw, s.isn, U64(s.lastAckno));
            var t := Step(s, Ack(ReceiverMessage(Some(raw), window, false))).sender;
            if k > s.expAckno then t == s
            else && t.lastAckno == Max(s.lastAckno, k)
                 && t.lastAckno + t.wnd == Max(t.lastAckno, k + window)
  {
    hide Unwrap, Acknowledge;
  }
}
