/** Exponential backoff over runs of the sender (section 5 of RFC 6298). */
module Retransmission {
  import opened Numbers
  import opened Messages
  import opened Wrapping
  import opened SenderModel
  import opened SenderTheory

  /** The timeout doubles with every counted retransmission, in 64-bit arithmetic, and a running timer is
      armed with it. */
  ghost predicate BackedOff(s: Sender) {
    && s.curRto == U64(s.initialRto * Pow2(s.retxCnt))
    && (s.conRetx <==> s.retxCnt > 0)
    && (s.timer.running ==> s.timer.expTime == s.curRto)
  }

  /** Adding whole multiples of 2^64 does not change the remainder. */
  lemma ModAdd(r: nat, k: nat)
    ensures (r + k * 0x1_0000_0000_0000_0000) % 0x1_0000_0000_0000_0000 == r % 0x1_0000_0000_0000_0000
  {
    var a, b := r / 0x1_0000_0000_0000_0000, r % 0x1_0000_0000_0000_0000;
    assert r + k * 0x1_0000_0000_0000_0000 == (a + k) * 0x1_0000_0000_0000_0000 + b;
  }

  lemma U64IsMod(x: nat)
    ensures U64(x) == x % 0x1_0000_0000_0000_0000
  {
  }

  lemma U64Exact(x: nat)
    ensures U64(x) == x <==> x < TWO64
  {
  }

  lemma DoubleU64(x: nat)
    ensures U64(U64(x) * 2) == U64(x * 2)
  {
    U64IsMod(x);
    U64IsMod(x * 2);
    U64IsMod(U64(x) * 2);
    var q, r := x / 0x1_0000_0000_0000_0000, x % 0x1_0000_0000_0000_0000;
    ModAdd(r * 2, q * 2);
    hide U64;
    assert x * 2 == r * 2 + (q * 2) * 0x1_0000_0000_0000_0000;
  }

  lemma Pow2Double(a: nat, k: nat)
    ensures a * Pow2(k + 1) == (a * Pow2(k)) * 2
  {
  }

  lemma {:induction false} FillTimer(s: Sender, room: nat)
    ensures var t := Fill(s, room).sender;
            && t.curRto == s.curRto && t.initialRto == s.initialRto && t.retxCnt == s.retxCnt
            && t.conRetx == s.conRetx && t.lastAckno == s.lastAckno
            && (t.timer == s.timer || (!s.timer.running && t.timer == Reset(s.timer, s.curRto)))
    decreases Unsent(s)
  {
    hide Segment, AfterSegment, Unsent;
    if Unsent(s) > 0 && room > 0 {
      SegmentProgress(s, room);
      SegmentEffect(s, room);
      FillStep(s, room);
      FillTimer(AfterSegment(s, room), room - Length(Segment(s, room)));
    }
  }

  /** push leaves the timeout alone and at most starts a stopped timer with it. */
  lemma PushTimer(s: Sender)
    ensures var t := Push(s).sender;
            && t.curRto == s.curRto && t.initialRto == s.initialRto && t.retxCnt == s.retxCnt
            && t.conRetx == s.conRetx && t.lastAckno == s.lastAckno
            && (t.timer == s.timer || (!s.timer.running && t.timer == Reset(s.timer, s.curRto)))
  {
    if !s.finAcked && s.lastAckno + Effective(s.wnd) > s.expAckno {
      FillTimer(s, s.lastAckno + Effective(s.wnd) - s.expAckno);
    }
  }

  lemma AckBackedOff(s: Sender, ackno: nat, window: u16)
    requires BackedOff(s)
    ensures var t := ReceiveAck(s, ackno, window);
            BackedOff(t) && t.initialRto == s.initialRto
  {
    assert s.initialRto * Pow2(0) == s.initialRto;
  }

  lemma TickBackedOff(s: Sender, ms: u64)
    requires BackedOff(s)
    ensures BackedOff(Tick(s, ms).sender) && Tick(s, ms).sender.initialRto == s.initialRto
  {
    hide U64, Pow2;
    DoubledIs(s);
  }

  /** What doubling the timeout gives. */
  lemma DoubledIs(s: Sender)
    requires BackedOff(s)
    ensures U64(s.curRto * 2) == U64(s.initialRto * Pow2(s.retxCnt + 1))
    ensures s.curRto == U64(s.initialRto * Pow2(s.retxCnt))
  {
    hide U64, Pow2;
    DoubleU64(s.initialRto * Pow2(s.retxCnt));
    Pow2Double(s.initialRto, s.retxCnt);
  }

  lemma StepBackedOff(s: Sender, e: Event)
    requires BackedOff(s)
    ensures BackedOff(Step(s, e).sender) && Step(s, e).sender.initialRto == s.initialRto
  {
    hide ReceiveAck, Tick, Push, Pow2;
    match e
    case Write(data) =>
    case CloseInput =>
    case PushEvent => PushTimer(s);
    case Ack(msg) =>
      if !msg.rst {
        match msg.ackno
        case None => AckBackedOff(Rewind(s, msg.window), 0, msg.window);
        case Some(raw) => AckBackedOff(s, Unwrap(raw, s.isn, U64(s.lastAckno)), msg.window);
      }
    case TickEvent(ms) => TickBackedOff(s, ms);
  }

  lemma {:induction false} RunKeepsBackoff(s: Sender, events: seq<Event>)
    requires BackedOff(s)
    ensures BackedOff(Run(s, events).sender) && Run(s, events).sender.initialRto == s.initialRto
    decreases |events|
  {
    if events != [] {
      StepBackedOff(s, events[0]);
      RunKeepsBackoff(Step(s, events[0]).sender, events[1..]);
    }
  }

  lemma NewSenderBackedOff(capacity: nat, isn: u32, initialRto: u64)
    ensures BackedOff(NewSender(capacity, isn, initialRto))
    ensures NewSender(capacity, isn, initialRto).initialRto == initialRto
  {
    assert initialRto * Pow2(0) == initialRto;
  }

  lemma BackedOffMeans(s: Sender)
    requires BackedOff(s)
    ensures s.curRto == U64(s.initialRto * Pow2(s.retxCnt))
    ensures s.curRto == s.initialRto * Pow2(s.retxCnt) <==> s.initialRto * Pow2(s.retxCnt) < TWO64
    ensures s.timer.running ==> s.timer.expTime == s.curRto
  {
    hide Pow2;
    U64Exact(s.initialRto * Pow2(s.retxCnt));
  }

  /** Over every run of a new sender the timeout is the initial one times 2 to the number of consecutive
      retransmissions: in machine arithmetic always, and exactly if and only if that number fits 64 bits. A running
      timer is armed with it. */
  lemma RunBackedOff(capacity: nat, isn: u32, initialRto: u64, events: seq<Event>)
    ensures var t := Run(NewSender(capacity, isn, initialRto), events).sender;
            && t.curRto == U64(initialRto * Pow2(t.retxCnt))
            && (t.curRto == initialRto * Pow2(t.retxCnt) <==> initialRto * Pow2(t.retxCnt) < TWO64)
            && (t.timer.running ==> t.timer.expTime == t.curRto)
  {
    hide Run, Pow2, U64, NewSender, BackedOff;
    NewSenderBackedOff(capacity, isn, initialRto);
    RunKeepsBackoff(NewSender(capacity, isn, initialRto), events);
    BackedOffMeans(Run(NewSender(capacity, isn, initialRto), events).sender);
  }

  /** With an initial timeout of 2^63 ms the first counted retransmission leaves a timeout of zero. */
  lemma TimeoutOverflows(capacity: nat, isn: u32)
    ensures var s := NewSender(capacity, isn, 0x8000_0000_0000_0000);
            var t := Run(s, [PushEvent, TickEvent(0x8000_0000_0000_0000)]).sender;
            t.retxCnt == 1 && t.curRto == 0
  {
    var s := NewSender(capacity, isn, 0x8000_0000_0000_0000);
    FillStep(s, 1);
    var u := AfterSegment(s, 1);
    assert Step(s, PushEvent).sender == u && u.ost != [];
    var t := Tick(u, 0x8000_0000_0000_0000).sender;
    assert t.retxCnt == 1 && t.curRto == 0;
    assert [PushEvent, TickEvent(0x8000_0000_0000_0000)][1..] == [TickEvent(0x8000_0000_0000_0000)];
    assert [TickEvent(0x8000_0000_0000_0000)][1..] == [];
    assert Run(u, [TickEvent(0x8000_0000_0000_0000)]).sender == Run(t, []).sender == t;
  }

  /** An expiry counts, and doubles the timeout, exactly when the window is not zero; either way the timer
      starts again. */
  lemma ExpiryCounts(s: Sender, ms: u64)
    requires BackedOff(s) && s.timer.running && Grow(s.timer, ms).expired && s.ost != []
    ensures var t := Tick(s, ms).sender;
            && t.retxCnt == (if s.wnd == 0 then s.retxCnt else s.retxCnt + 1)
            && t.curRto == (if s.wnd == 0 then s.curRto else U64(s.initialRto * Pow2(s.retxCnt + 1)))
            && t.timer == Timer(true, false, t.curRto, 0)
  {
    hide U64, Pow2;
    DoubledIs(s);
  }

  // ----- how long a number of retransmissions takes -----

  /** Milliseconds of ticks since the last acknowledgment of new data, given those before event e. */
  function ElapsedAfter(s: Sender, e: Event, elapsed: nat): nat {
    if Step(s, e).sender.lastAckno > s.lastAckno then 0
    else if e.TickEvent? then elapsed + e.ms
    else elapsed
  }

  function Elapsed(s: Sender, events: seq<Event>, elapsed: nat): nat
    decreases |events|
  {
    if events == [] then elapsed
    else Elapsed(Step(s, events[0]).sender, events[1..], ElapsedAfter(s, events[0], elapsed))
  }

  /** None of the timeouts waited for so far overflowed. */
  predicate NoOverflow(s: Sender) {
    s.retxCnt == 0 || s.initialRto * Pow2(s.retxCnt - 1) < TWO64
  }

  function Waited(s: Sender): int {
    s.initialRto * Pow2(s.retxCnt) - s.initialRto
  }

  ghost predicate Timed(s: Sender, elapsed: nat) {
    NoOverflow(s) ==> elapsed >= Waited(s) + (if s.timer.running then s.timer.curTime else 0)
  }

  lemma TickTimed(s: Sender, ms: u64, elapsed: nat)
    requires BackedOff(s) && Timed(s, elapsed)
    ensures Timed(Tick(s, ms).sender, elapsed + ms)
  {
    if s.timer.running && Grow(s.timer, ms).expired && s.ost != [] && s.wnd != 0 {
      Pow2Double(s.initialRto, s.retxCnt);
      var t := Tick(s, ms).sender;
      assert t.retxCnt == s.retxCnt + 1;
      if NoOverflow(t) {
        assert s.initialRto * Pow2(s.retxCnt) < TWO64;
        if s.retxCnt > 0 {
          Pow2Double(s.initialRto, s.retxCnt - 1);
        }
      }
    }
  }

  lemma AckTimed(s: Sender, ackno: nat, window: u16, elapsed: nat)
    requires Timed(s, elapsed)
    ensures var t := ReceiveAck(s, ackno, window);
            Timed(t, if t.lastAckno > s.lastAckno then 0 else elapsed)
  {
    assert s.initialRto * Pow2(0) == s.initialRto;
  }

  lemma StepTimed(s: Sender, e: Event, elapsed: nat)
    requires BackedOff(s) && Timed(s, elapsed)
    ensures Timed(Step(s, e).sender, ElapsedAfter(s, e, elapsed))
  {
    hide ReceiveAck, Push, Pow2;
    match e
    case Write(data) =>
    case CloseInput =>
    case PushEvent => PushTimer(s);
    case Ack(msg) =>
      if !msg.rst {
        match msg.ackno
        case None =>
          AckTimed(Rewind(s, msg.window), 0, msg.window, elapsed);
        case Some(raw) =>
          AckTimed(s, Unwrap(raw, s.isn, U64(s.lastAckno)), msg.window, elapsed);
      }
    case TickEvent(ms) => TickTimed(s, ms, elapsed);
  }

  lemma {:induction false} RunTimed(s: Sender, events: seq<Event>, elapsed: nat)
    requires BackedOff(s) && Timed(s, elapsed)
    ensures Timed(Run(s, events).sender, Elapsed(s, events, elapsed))
    decreases |events|
  {
    if events != [] {
      StepBackedOff(s, events[0]);
      StepTimed(s, events[0], elapsed);
      RunTimed(Step(s, events[0]).sender, events[1..], ElapsedAfter(s, events[0], elapsed));
    }
  }

  /** A new sender that has counted k consecutive retransmissions has been ticked for at least
      initial * (2^k - 1) ms since new data was last acknowledged, unless a timeout overflowed 64 bits. */
  lemma BackoffTakesTime(capacity: nat, isn: u32, initialRto: u64, events: seq<Event>)
    ensures var s := NewSender(capacity, isn, initialRto);
            var t := Run(s, events).sender;
            NoOverflow(t) ==> Elapsed(s, events, 0) >= initialRto * (Pow2(t.retxCnt) - 1)
  {
    var s := NewSender(capacity, isn, initialRto);
    NewSenderBackedOff(capacity, isn, initialRto);
    RunTimed(s, events, 0);
    RunKeepsBackoff(s, events);
    var t := Run(s, events).sender;
    MulMinusOne(initialRto, Pow2(t.retxCnt));
    hide Run, Elapsed, Pow2, NewSender;
  }

  lemma MulMinusOne(a: nat, p: int)
    ensures a * (p - 1) == a * p - a
  {
  }
}
