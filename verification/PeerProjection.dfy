/** A peer is its sender and its receiver run side by side: what holds of their runs holds of the peer's. */
module PeerProjection {
  import opened Numbers
  import opened Messages
  import opened Bytes
  import opened PeerModel
  import opened PeerTheory
  import opened SenderTheory
  import Expiry
  import Retransmission
  import Stream = StreamModel
  import Rx = ReceiverModel
  import Tx = SenderModel

  /** What an action means for the sender. A message to an active peer is an acknowledgment and then a push. */
  function SenderEvents(p: Peer, a: PeerAction): seq<Event> {
    match a
    case WriteOut(data) => [Write(data)]
    case CloseOut => [CloseInput]
    case PushOut => [PushEvent]
    case ReadIn(_) => []
    case Incoming(m) => if Active(p) then [Ack(m.receiver), PushEvent] else []
    case Elapse(ms) => [TickEvent(ms)]
  }

  function AllSenderEvents(p: Peer, actions: seq<PeerAction>): seq<Event>
    decreases |actions|
  {
    if actions == [] then [] else SenderEvents(p, actions[0]) + AllSenderEvents(Act(p, actions[0]).peer, actions[1..])
  }

  /** What an action does to the receiver. */
  function ReceiverStep(p: Peer, r: Rx.Receiver, a: PeerAction): Rx.Receiver {
    match a
    case Incoming(m) => if Active(p) then Rx.Receive(r, m.sender) else r
    case ReadIn(len) => r.(reassembly := r.reassembly.(output := Stream.Pop(r.reassembly.output, len)))
    case _ => r
  }

  function ReceiverRun(p: Peer, r: Rx.Receiver, actions: seq<PeerAction>): Rx.Receiver
    decreases |actions|
  {
    if actions == [] then r else ReceiverRun(Act(p, actions[0]).peer, ReceiverStep(p, r, actions[0]), actions[1..])
  }

  /** The segments that use sequence numbers; replies do not. */
  function Occupying(ms: seq<SenderMessage>): seq<SenderMessage> {
    if ms == [] then [] else (if Length(ms[0]) > 0 then [ms[0]] else []) + Occupying(ms[1..])
  }

  lemma {:induction false} OccupyingAppend(a: seq<SenderMessage>, b: seq<SenderMessage>)
    ensures Occupying(a + b) == Occupying(a) + Occupying(b)
  {
    hide Length;
    if a == [] {
      assert a + b == b;
    } else {
      OccupyingAppend(a[1..], b);
      assert (a + b)[1..] == a[1..] + b;
      ConcatAssoc(if Length(a[0]) > 0 then [a[0]] else [], Occupying(a[1..]), Occupying(b));
    }
  }

  lemma {:induction false} AllOccupy(ms: seq<SenderMessage>)
    requires forall m :: m in ms ==> Length(m) > 0
    ensures Occupying(ms) == ms
  {
    hide Length;
    if ms != [] {
      assert ms[0] in ms;
      AllOccupy(ms[1..]);
    }
  }

  lemma SegmentsAppend(a: seq<TCPMessage>, b: seq<TCPMessage>)
    ensures SegmentsOf(a + b) == SegmentsOf(a) + SegmentsOf(b)
  {
  }

  lemma {:induction false} RunAppend(s: Tx.Sender, a: seq<Event>, b: seq<Event>)
    ensures var first, both := Run(s, a), Run(s, a + b);
            var rest := Run(first.sender, b);
            both.sender == rest.sender && both.messages == first.messages + rest.messages
    decreases |a|
  {
    hide Step;
    if a == [] {
      assert a + b == b;
    } else {
      RunAppend(Step(s, a[0]).sender, a[1..], b);
      assert (a + b)[1..] == a[1..] + b;
      var rest := Run(Run(s, a).sender, b);
      ConcatAssoc(Step(s, a[0]).messages, Run(Step(s, a[0]).sender, a[1..]).messages, rest.messages);
    }
  }

  lemma RunOne(s: Tx.Sender, e: Event)
    ensures Run(s, [e]) == Step(s, e)
  {
    hide Step;
    assert [e][1..] == [] && Run(Step(s, e).sender, []) == Tx.Sent(Step(s, e).sender, []);
    assert Step(s, e).messages + [] == Step(s, e).messages;
  }

  lemma RunTwo(s: Tx.Sender, e: Event, f: Event)
    ensures var first := Step(s, e);
            var second := Step(first.sender, f);
            Run(s, [e, f]) == Tx.Sent(second.sender, first.messages + second.messages)
  {
    hide Step;
    assert [e, f][1..] == [f];
    RunOne(Step(s, e).sender, f);
  }

  /** All that a sender transmits uses sequence numbers. */
  lemma StepOccupies(s: Tx.Sender, e: Event)
    requires Structured(s)
    ensures forall m :: m in Step(s, e).messages ==> Length(m) > 0
  {
    if e.PushEvent? {
      PushMaximal(s);
    }
    hide Tx.Push, Tx.Receive, Length;
    if e.TickEvent? {
      assert s.ost != [] ==> Length(s.ost[0].msg) > 0;
    }
  }

  /** The messages of a peer that are segments of its sender, under one acknowledgment. */
  lemma AttachProjects(p: Peer, segments: seq<SenderMessage>)
    ensures SegmentsOf(Attach(p, segments).messages) == segments
    ensures forall x :: x in Attach(p, segments).messages ==> x.receiver == Rx.Send(p.receiver)
  {
    hide Rx.Send;
  }

  ghost predicate Projects(p: Peer, a: PeerAction, t: PeerModel.Sent) {
    var s := Run(p.sender, SenderEvents(p, a));
    && t.peer.sender == s.sender && Occupying(SegmentsOf(t.messages)) == s.messages
    && t.peer.receiver == ReceiverStep(p, p.receiver, a)
    && forall x :: x in t.messages ==> x.receiver == Rx.Send(t.peer.receiver)
  }

  lemma IncomingProjects(p: Peer, m: TCPMessage)
    requires !p.needSend && Structured(p.sender)
    ensures Projects(p, Incoming(m), Act(p, Incoming(m)))
  {
    hide Active, Tx.Push, Tx.Receive, Rx.Receive, Rx.Send, WantsReply, Receive, Structured, Length;
    if Active(p) {
      ActiveAnswers(p, m);
      RunTwo(p.sender, Ack(m.receiver), PushEvent);
      AnswerOccupies(p, m);
      var s := Tx.Receive(p.sender, m.receiver);
      assert [] + Tx.Push(s).messages == Tx.Push(s).messages;
    } else {
      InactiveIgnores(p, m);
    }
  }

  lemma InactiveIgnores(p: Peer, m: TCPMessage)
    requires !Active(p)
    ensures Receive(p, m) == PeerModel.Sent(p, [])
  {
  }

  /** What uses sequence numbers in an answer is what the sender pushes. */
  lemma AnswerOccupies(p: Peer, m: TCPMessage)
    requires Structured(p.sender)
    ensures var pushed := Tx.Push(Tx.Receive(p.sender, m.receiver));
            Occupying(pushed.messages) == pushed.messages && Occupying([EmptySegment(pushed.sender)]) == []
  {
    StepStructured(p.sender, Ack(m.receiver));
    hide Tx.Push, Tx.Receive, Structured;
    var s := Tx.Receive(p.sender, m.receiver);
    StepOccupies(s, PushEvent);
    AllOccupy(Tx.Push(s).messages);
  }

  /** One action. */
  lemma ActProjects(p: Peer, a: PeerAction)
    requires !p.needSend && Structured(p.sender)
    ensures Projects(p, a, Act(p, a))
  {
    hide Active, Tx.Push, Tx.Tick, Tx.Receive, Rx.Receive, Rx.Send, Structured, Receive, Length;
    match a
    case WriteOut(data) => RunOne(p.sender, Write(data));
    case CloseOut => RunOne(p.sender, CloseInput);
    case PushOut =>
      RunOne(p.sender, PushEvent);
      StepOccupies(p.sender, PushEvent);
      AllOccupy(Tx.Push(p.sender).messages);
      AttachProjects(p.(sender := Tx.Push(p.sender).sender), Tx.Push(p.sender).messages);
    case ReadIn(_) =>
    case Incoming(m) => IncomingProjects(p, m);
    case Elapse(ms) =>
      RunOne(p.sender, TickEvent(ms));
      StepOccupies(p.sender, TickEvent(ms));
      AllOccupy(Tx.Tick(p.sender, ms).messages);
      AttachProjects(p.(sender := Tx.Tick(p.sender, ms).sender, time := p.time + ms), Tx.Tick(p.sender, ms).messages);
  }

  lemma {:induction false} ActAllProjects(p: Peer, actions: seq<PeerAction>)
    requires !p.needSend && PeerOk(p)
    ensures var t, s := ActAll(p, actions), Run(p.sender, AllSenderEvents(p, actions));
            && t.peer.sender == s.sender && Occupying(SegmentsOf(t.messages)) == s.messages
            && t.peer.receiver == ReceiverRun(p, p.receiver, actions)
    decreases |actions|
  {
    if actions != [] {
      var t := Act(p, actions[0]);
      ActProjects(p, actions[0]);
      ActSettles(p, actions[0]);
      ActOk(p, actions[0]);
      hide Act, SenderEvents, ReceiverStep, PeerOk, Occupying, SegmentsOf;
      ActAllProjects(t.peer, actions[1..]);
      RunAppend(p.sender, SenderEvents(p, actions[0]), AllSenderEvents(t.peer, actions[1..]));
      SegmentsAppend(t.messages, ActAll(t.peer, actions[1..]).messages);
      OccupyingAppend(SegmentsOf(t.messages), SegmentsOf(ActAll(t.peer, actions[1..]).messages));
    }
  }

  /** Over any run of a new peer: its sender is a new sender that has gone through the acknowledgments taken in, the
      pushes, the ticks and what the application wrote, in order; of what it has transmitted, the segments that use
      sequence numbers are exactly those this sender transmits; and its receiver is a new receiver that has taken in
      the segments of the messages that came while the peer was active, and been read. */
  lemma PeerIsBoth(sendCapacity: nat, receiveCapacity: nat, isn: u32, rtTimeout: u16, actions: seq<PeerAction>)
    ensures var p0 := NewPeer(sendCapacity, receiveCapacity, isn, rtTimeout);
            var t := ActAll(p0, actions);
            var s := Run(Tx.NewSender(sendCapacity, isn, rtTimeout), AllSenderEvents(p0, actions));
            && t.peer.sender == s.sender && Occupying(SegmentsOf(t.messages)) == s.messages
            && t.peer.receiver == ReceiverRun(p0, Rx.NewReceiver(receiveCapacity), actions)
  {
    ActAllProjects(NewPeer(sendCapacity, receiveCapacity, isn, rtTimeout), actions);
  }

  /** So a peer retransmits when the time has come: after any run, time passing makes it transmit exactly when
      something is outstanding and the ticks since the wait began reach the backed-off timeout; and then it sends
      the first outstanding segment, once, with its present acknowledgment. */
  lemma PeerRetransmitsIff(sendCapacity: nat, receiveCapacity: nat, isn: u32, rtTimeout: u16, actions: seq<PeerAction>,
                           ms: u64)
    ensures var p0 := NewPeer(sendCapacity, receiveCapacity, isn, rtTimeout);
            var p := ActAll(p0, actions).peer;
            var past := Expiry.RunPast(p0.sender, AllSenderEvents(p0, actions), Expiry.Past(0, 0));
            Act(p, Elapse(ms)).messages
            == if p.sender.ost != [] && past.waited + ms >= U64(Expiry.Timeout(rtTimeout, past.backoffs))
               then [TCPMessage(p.sender.ost[0].msg, Rx.Send(p.receiver))] else []
  {
    var p0 := NewPeer(sendCapacity, receiveCapacity, isn, rtTimeout);
    PeerIsBoth(sendCapacity, receiveCapacity, isn, rtTimeout, actions);
    Expiry.TickRetransmitsIff(sendCapacity, isn, rtTimeout, AllSenderEvents(p0, actions), ms);
    hide ActAll, Run, AllSenderEvents, Expiry.RunPast, Expiry.Timeout, U64, Rx.Send, Tx.Tick, Act;
    ElapseSends(ActAll(p0, actions).peer, ms);
  }

  lemma ElapseSends(p: Peer, ms: u64)
    ensures var sent, out := Step(p.sender, TickEvent(ms)).messages, Act(p, Elapse(ms)).messages;
            && |out| == |sent| && forall i :: 0 <= i < |out| ==> out[i] == TCPMessage(sent[i], Rx.Send(p.receiver))
  {
    hide Tx.Tick, Rx.Send;
  }
}
