/** What the receiver says, over any run: whether it acknowledges, from where it counts, and whether it resets. */
module ReceiverTheory {
  import opened Numbers
  import opened Messages
  import opened Wrapping
  import opened ReassemblerModel
  import Theory = ReassemblerTheory
  import opened ReceiverModel
  import Model = ReceiverModel
  import Out = StreamModel

  datatype Event = Segment(msg: SenderMessage) | Read(len: nat)

  function Step(r: Receiver, e: Event): Receiver {
    match e
    case Segment(m) => Model.Receive(r, m)
    case Read(len) => r.(reassembly := r.reassembly.(output := Out.Pop(r.reassembly.output, len)))
  }

  function Run(r: Receiver, events: seq<Event>): Receiver
    decreases |events|
  {
    if events == [] then r else Run(Step(r, events[0]), events[1..])
  }

  /** The number of the latest SYN that came without a reset, if any did. */
  function Opening(events: seq<Event>, before: Option<u32>): Option<u32>
    decreases |events|
  {
    if events == [] then before
    else
      var e := events[0];
      Opening(events[1..], if e.Segment? && e.msg.syn && !e.msg.rst then Some(e.msg.seqno) else before)
  }

  predicate HasReset(events: seq<Event>) {
    exists k :: 0 <= k < |events| && events[k].Segment? && events[k].msg.rst
  }

  /** Has FIN come with the latest such SYN or since? */
  function Ending(events: seq<Event>, before: bool): bool
    decreases |events|
  {
    if events == [] then before
    else
      var e := events[0];
      Ending(events[1..], if e.Segment? && !e.msg.rst then e.msg.fin || (before && !e.msg.syn) else before)
  }

  /** What the receiver remembers of the past. */
  ghost predicate Remembers(r: Receiver, opening: Option<u32>, ending: bool, reset: bool) {
    && r.isInit == opening.Some? && (r.isInit ==> r.isn == opening.value)
    && r.hasFin == ending && r.reassembly.output.error == reset && (r.hasRst ==> reset)
  }

  lemma StepRemembers(r: Receiver, e: Event, opening: Option<u32>, ending: bool, reset: bool)
    requires Remembers(r, opening, ending, reset)
    ensures Remembers(Step(r, e), Opening([e], opening), Ending([e], ending), reset || (e.Segment? && e.msg.rst))
  {
    hide Insert, Unwrap;
    assert [e][1..] == [];
    if e.Segment? && !e.msg.rst {
      Theory.InsertFrame(r.reassembly, 0, e.msg.payload, e.msg.fin);
      Theory.InsertFrame(r.reassembly, U64(Unwrap(e.msg.seqno, r.isn, r.maxAbsSeqno) - 1), e.msg.payload, e.msg.fin);
    }
  }

  lemma {:induction false} RunRemembers(r: Receiver, events: seq<Event>, opening: Option<u32>, ending: bool,
                                        reset: bool)
    requires Remembers(r, opening, ending, reset)
    ensures Remembers(Run(r, events), Opening(events, opening), Ending(events, ending), reset || HasReset(events))
    decreases |events|
  {
    if events != [] {
      var e := events[0];
      StepRemembers(r, e, opening, ending, reset);
      assert [e][1..] == [];
      hide Step, Remembers;
      RunRemembers(Step(r, e), events[1..], Opening([e], opening), Ending([e], ending),
                   reset || (e.Segment? && e.msg.rst));
      ResetSplits(events);
    }
  }

  lemma ResetSplits(events: seq<Event>)
    requires events != []
    ensures HasReset(events) <==> (events[0].Segment? && events[0].msg.rst) || HasReset(events[1..])
  {
    if HasReset(events[1..]) {
      var k :| 0 <= k < |events[1..]| && events[1..][k].Segment? && events[1..][k].msg.rst;
      assert events[k + 1].Segment? && events[k + 1].msg.rst;
    }
    if HasReset(events) {
      var k :| 0 <= k < |events| && events[k].Segment? && events[k].msg.rst;
      assert k > 0 ==> events[1..][k - 1] == events[k];
    }
  }

  /** Over any run of a new receiver: it announces a reset iff one has come; it acknowledges iff SYN has come
      without one, counting from the latest such SYN; the number is that of the first missing byte, or the next one
      iff FIN has come with that SYN or since and nothing is stored; and the window is all the room there is, or
      65535. */
  lemma ReplyIs(capacity: nat, events: seq<Event>)
    ensures var r := Run(NewReceiver(capacity), events);
            var reply, opening, out := Model.Send(r), Opening(events, None), r.reassembly.output;
            var counted := if Ending(events, false) && Covered(r.reassembly.segs) == {} then 1 else 0;
            && (reply.rst <==> HasReset(events))
            && reply.ackno == (if opening.None? then None
                               else Some(Wrap(r.reassembly.next + 1 + counted, opening.value)))
            && reply.window == Min(out.capacity - |out.history[out.removed..]|, 65535)
  {
    RunRemembers(NewReceiver(capacity), events, None, false, false);
    hide Run, Opening, Ending, HasReset, Wrap, Covered;
  }
}
