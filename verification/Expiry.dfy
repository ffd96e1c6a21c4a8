/** When a tick retransmits: exactly when enough milliseconds of ticks have added up (section 5 of RFC 6298). */
module Expiry {
  import opened Numbers
  import opened Messages
  import opened Wrapping
  import opened SenderModel
  import opened SenderTheory
  import opened Retransmission

  /** What matters of the past. `waited`: milliseconds of ticks since the first segment went out with nothing else
      outstanding, since new data was acknowledged, or since the last retransmission, whichever came last. `backoffs`:
      retransmissions under a window that was not zero, since new data was last acknowledged. */
  datatype Past = Past(waited: nat, backoffs: nat)

  function Remember(s: Sender, e: Event, past: Past): Past {
    var t := Step(s, e);
    var acked := t.sender.lastAckno > s.lastAckno;
    var resent := e.TickEvent? && t.messages != [];
    Past(if s.ost == [] || t.sender.ost == [] || acked || resent then 0
         else if e.TickEvent? then past.waited + e.ms
         else past.waited,
         if acked then 0 else if resent && s.wnd != 0 then past.backoffs + 1 else past.backoffs)
  }

  function RunPast(s: Sender, events: seq<Event>, past: Past): Past
    decreases |events|
  {
    if events == [] then past else RunPast(Step(s, events[0]).sender, events[1..], Remember(s, events[0], past))
  }

  /** The running timer shows what has been waited for. */
  ghost predicate Clocked(s: Sender, past: Past) {
    && Structured(s) && BackedOff(s)
    && s.retxCnt == past.backoffs
    && (s.ost != [] ==> s.timer.curTime == past.waited)
  }

  /** A tick transmits exactly when the wait is over, the first outstanding segment, and then waits anew. */
  lemma TickClocked(s: Sender, past: Past, ms: u64)
    requires Clocked(s, past)
    ensures Tick(s, ms).messages
         == if s.ost != [] && past.waited + ms >= s.curRto then [s.ost[0].msg] else []
    ensures Clocked(Tick(s, ms).sender, Remember(s, TickEvent(ms), past))
  {
    StepStructured(s, TickEvent(ms));
    TickBackedOff(s, ms);
    hide U64, Pow2, Tiles;
  }

  lemma PushClocked(s: Sender, past: Past)
    requires Clocked(s, past)
    ensures Clocked(Push(s).sender, Remember(s, PushEvent, past))
  {
    StepStructured(s, PushEvent);
    StepBackedOff(s, PushEvent);
    PushTimer(s);
    hide Push, U64, Pow2, Tiles;
  }

  lemma AckClocked(s: Sender, past: Past, msg: ReceiverMessage)
    requires Clocked(s, past)
    ensures Clocked(Receive(s, msg), Remember(s, Ack(msg), past))
  {
    StepStructured(s, Ack(msg));
    StepBackedOff(s, Ack(msg));
    hide Unwrap, Acknowledge, U64, Pow2, Tiles;
  }

  lemma StepClocked(s: Sender, e: Event, past: Past)
    requires Clocked(s, past)
    ensures Clocked(Step(s, e).sender, Remember(s, e, past))
  {
    match e
    case PushEvent => PushClocked(s, past);
    case Ack(msg) => AckClocked(s, past, msg);
    case TickEvent(ms) => TickClocked(s, past, ms);
    case Write(data) =>
    case CloseInput =>
  }

  lemma {:induction false} RunClocked(s: Sender, events: seq<Event>, past: Past)
    requires Clocked(s, past)
    ensures Clocked(Run(s, events).sender, RunPast(s, events, past))
    decreases |events|
  {
    if events != [] {
      hide Clocked, Step, Remember;
      StepClocked(s, events[0], past);
      RunClocked(Step(s, events[0]).sender, events[1..], Remember(s, events[0], past));
    }
  }

  /** The timeout after a number of retransmissions, before it is reduced to 64 bits. */
  function Timeout(initialRto: u64, backoffs: nat): nat {
    initialRto * Pow2(backoffs)
  }

  /** The tick of such a sender. */
  lemma ClockedTick(s: Sender, past: Past, ms: u64, timeout: nat)
    requires Clocked(s, past) && timeout == Timeout(s.initialRto, past.backoffs)
    ensures Tick(s, ms).messages == (if s.ost != [] && past.waited + ms >= U64(timeout) then [s.ost[0].msg] else [])
    ensures timeout < TWO64 ==> U64(timeout) == timeout
  {
    TickClocked(s, past, ms);
    U64Exact(timeout);
    hide Tick, U64, Pow2, Structured;
  }

  /** Waiting adds up. After any run of a new sender a tick retransmits exactly when something is outstanding and
      the ticks since the wait began, this one included, reach the initial timeout times 2 to the number of
      retransmissions since new data was last acknowledged; and then it sends the first outstanding segment and
      nothing else. Where that product does not fit 64 bits, its remainder is what has to be reached. */
  lemma TickRetransmitsIff(capacity: nat, isn: u32, initialRto: u64, events: seq<Event>, ms: u64)
    ensures var s := Run(NewSender(capacity, isn, initialRto), events).sender;
            var past := RunPast(NewSender(capacity, isn, initialRto), events, Past(0, 0));
            var timeout := Timeout(initialRto, past.backoffs);
            && Step(s, TickEvent(ms)).messages
               == (if s.ost != [] && past.waited + ms >= U64(timeout) then [s.ost[0].msg] else [])
            && (timeout < TWO64 ==>
                  (Step(s, TickEvent(ms)).messages != [] <==> s.ost != [] && past.waited + ms >= timeout))
  {
    var s0 := NewSender(capacity, isn, initialRto);
    NewSenderBackedOff(capacity, isn, initialRto);
    RunClocked(s0, events, Past(0, 0));
    RunKeepsBackoff(s0, events);
    hide Run, RunPast, U64, Pow2, Timeout, Tick, Clocked, BackedOff, NewSender;
    ClockedTick(Run(s0, events).sender, RunPast(s0, events, Past(0, 0)), ms,
                Timeout(initialRto, RunPast(s0, events, Past(0, 0)).backoffs));
  }
}
