/** When inactivity of a peer is final and silent, and that every segment that calls for a reply gets one. */
module PeerTheory {
  import opened Numbers
  import opened Messages
  import opened Wrapping
  import opened PeerModel
  import opened SenderTheory
  import Stream = StreamModel
  import Rx = ReceiverModel
  import Tx = SenderModel

  /** Everything that can happen at a peer. */
  datatype PeerAction =
    | WriteOut(data: seq<byte>)
    | CloseOut
    | PushOut
    | ReadIn(len: nat)
    | Incoming(msg: TCPMessage)
    | Elapse(ms: u64)

  function Act(p: Peer, a: PeerAction): PeerModel.Sent {
    match a
    case WriteOut(data) => PeerModel.Sent(p.(sender := Step(p.sender, Write(data)).sender), [])
    case CloseOut => PeerModel.Sent(p.(sender := Step(p.sender, CloseInput).sender), [])
    case PushOut => PeerModel.Push(p)
    case ReadIn(len) =>
      var r := p.receiver.reassembly;
      PeerModel.Sent(p.(receiver := p.receiver.(reassembly := r.(output := Stream.Pop(r.output, len)))), [])
    case Incoming(msg) => Receive(p, msg)
    case Elapse(ms) => PeerModel.Tick(p, ms)
  }

  function ActAll(p: Peer, actions: seq<PeerAction>): PeerModel.Sent
    decreases |actions|
  {
    if actions == [] then PeerModel.Sent(p, [])
    else
      var first := Act(p, actions[0]);
      var rest := ActAll(first.peer, actions[1..]);
      PeerModel.Sent(rest.peer, first.messages + rest.messages)
  }

  // ----- what inactivity rests on -----

  /** FIN is acknowledged only if sent, and is taken for acknowledged back at the start. */
  predicate FinKept(s: Tx.Sender) {
    (s.finAcked ==> s.finSent) && (s.finSent && s.expAckno == 0 ==> s.finAcked)
  }

  ghost predicate PeerOk(p: Peer) {
    Structured(p.sender) && FinKept(p.sender)
  }

  lemma {:induction false} FillFinKept(s: Tx.Sender, room: nat)
    requires FinKept(s)
    ensures FinKept(Tx.Fill(s, room).sender)
    decreases Tx.Unsent(s)
  {
    if Tx.Unsent(s) > 0 && room > 0 {
      Tx.SegmentProgress(s, room);
      Tx.FillStep(s, room);
      assert FinKept(Tx.AfterSegment(s, room));
      hide Tx.Segment, Tx.AfterSegment, Tx.Unsent, FinKept;
      FillFinKept(Tx.AfterSegment(s, room), room - Length(Tx.Segment(s, room)));
    }
  }

  lemma StepFinKept(s: Tx.Sender, e: Event)
    requires FinKept(s)
    ensures FinKept(Step(s, e).sender)
  {
    hide Tx.Fill, Wrap, Unwrap, Tx.Acknowledge;
    if e.PushEvent? && s.lastAckno + Tx.Effective(s.wnd) > s.expAckno {
      FillFinKept(s, s.lastAckno + Tx.Effective(s.wnd) - s.expAckno);
    }
  }

  lemma StepOk(s: Tx.Sender, e: Event)
    requires Structured(s) && FinKept(s)
    ensures Structured(Step(s, e).sender) && FinKept(Step(s, e).sender)
  {
    StepStructured(s, e);
    StepFinKept(s, e);
  }

  /** The invariants that inactivity rests on are kept by everything that happens at a peer. */
  lemma ActOk(p: Peer, a: PeerAction)
    requires PeerOk(p)
    ensures PeerOk(Act(p, a).peer)
  {
    hide Tx.Push, Tx.Receive, Tx.Tick, Rx.Send, Rx.Receive, Structured, FinKept, Active, CallsForReply;
    match a
    case WriteOut(data) => StepOk(p.sender, Write(data));
    case CloseOut => StepOk(p.sender, CloseInput);
    case PushOut => StepOk(p.sender, PushEvent);
    case ReadIn(len) =>
    case Incoming(msg) =>
      StepOk(p.sender, Ack(msg.receiver));
      StepOk(Tx.Receive(p.sender, msg.receiver), PushEvent);
    case Elapse(ms) => StepOk(p.sender, TickEvent(ms));
  }

  lemma {:induction false} ActAllOk(p: Peer, actions: seq<PeerAction>)
    requires PeerOk(p)
    ensures PeerOk(ActAll(p, actions).peer)
    decreases |actions|
  {
    if actions != [] {
      hide Act, PeerOk;
      ActOk(p, actions[0]);
      ActAllOk(Act(p, actions[0]).peer, actions[1..]);
    }
  }

  // ----- inactivity -----

  /** At the end of a finished stream push sends FIN, unless it has been sent. */
  lemma PushAtEnd(s: Tx.Sender)
    requires Structured(s) && FinKept(s) && Tx.InFlight(s) == 0 && Stream.Finished(s.input)
    ensures s.finSent ==> Tx.Push(s) == Tx.Sent(s, [])
    ensures !s.finSent ==> Tx.InFlight(Tx.Push(s).sender) > 0
  {
    hide Wrap, Unwrap;
    var room := Tx.Effective(s.wnd);
    if s.finSent {
      if !s.finAcked {
        Tx.FillDone(s, room);
      }
    } else {
      Tx.FillStep(s, room);
      FillWindow(s, room);
      assert Tx.Fill(s, room).messages[0] in Tx.Fill(s, room).messages;
    }
  }

  /** What one action does to an inactive peer: only a push of a FIN not yet sent makes it active, and without a
      stream error nothing else makes it speak. */
  lemma InactiveAct(p: Peer, a: PeerAction)
    requires !Active(p) && PeerOk(p)
    ensures var t := Act(p, a);
            && (Active(t.peer) <==> a.PushOut? && !AnyErrors(p) && !p.sender.finSent)
            && (!Active(t.peer) ==>
                  && AnyErrors(t.peer) == AnyErrors(p)
                  && (!AnyErrors(p) ==> t.messages == [] && t.peer.sender.finSent == p.sender.finSent))
  {
    hide Wrap, Unwrap, Structured, Tx.Fill, Tx.Push, FinKept;
    match a
    case PushOut =>
      PushRst(p.sender);
      if !AnyErrors(p) {
        PushAtEnd(p.sender);
      }
    case Elapse(ms) => InactiveTick(p, ms);
    case Incoming(msg) =>
    case WriteOut(data) =>
    case CloseOut =>
    case ReadIn(len) =>
  }

  lemma InactiveTick(p: Peer, ms: u64)
    requires !Active(p) && Structured(p.sender)
    ensures var t := PeerModel.Tick(p, ms);
            && !Active(t.peer) && AnyErrors(t.peer) == AnyErrors(p)
            && (!AnyErrors(p) ==> t.messages == [] && t.peer.sender.finSent == p.sender.finSent)
  {
    if !AnyErrors(p) {
      TickRetransmits(p.sender, ms);
    }
  }

  lemma {:induction false} InactiveForever(p: Peer, actions: seq<PeerAction>)
    requires !Active(p) && PeerOk(p) && (AnyErrors(p) || p.sender.finSent || PushOut !in actions)
    ensures var t := ActAll(p, actions);
            !Active(t.peer) && (!AnyErrors(p) ==> t.messages == [])
    decreases |actions|
  {
    if actions != [] {
      assert actions[0] in actions;
      ActOk(p, actions[0]);
      InactiveAct(p, actions[0]);
      hide Act, Active, PeerOk, AnyErrors;
      InactiveForever(Act(p, actions[0]).peer, actions[1..]);
    }
  }

  /** Inactivity is absorbing. Whatever has happened at a new peer before: once it is inactive, nothing that happens
      makes it active or, without a stream error, makes it transmit, except a push of the application when FIN
      has not been sent. */
  lemma InactivityIsFinal(sendCapacity: nat, receiveCapacity: nat, isn: u32, rtTimeout: u16,
                          before: seq<PeerAction>, after: seq<PeerAction>)
    ensures var p := ActAll(NewPeer(sendCapacity, receiveCapacity, isn, rtTimeout), before).peer;
            var t := ActAll(p, after);
            !Active(p) && (AnyErrors(p) || p.sender.finSent || PushOut !in after) ==>
              !Active(t.peer) && (!AnyErrors(p) ==> t.messages == [])
  {
    ActAllOk(NewPeer(sendCapacity, receiveCapacity, isn, rtTimeout), before);
    var p := ActAll(NewPeer(sendCapacity, receiveCapacity, isn, rtTimeout), before).peer;
    if !Active(p) && (AnyErrors(p) || p.sender.finSent || PushOut !in after) {
      InactiveForever(p, after);
    }
  }

  lemma ActOne(p: Peer, a: PeerAction)
    ensures ActAll(p, [a]).peer == Act(p, a).peer
  {
    hide Act;
    assert [a][1..] == [] && ActAll(Act(p, a).peer, []).peer == Act(p, a).peer;
  }

  /** An inactive peer stays inactive whatever happens exactly when it has a stream error or FIN has been sent. */
  lemma InactiveForGoodIff(sendCapacity: nat, receiveCapacity: nat, isn: u32, rtTimeout: u16, before: seq<PeerAction>)
    ensures var p := ActAll(NewPeer(sendCapacity, receiveCapacity, isn, rtTimeout), before).peer;
            !Active(p) ==>
              (AnyErrors(p) || p.sender.finSent <==> forall after :: !Active(ActAll(p, after).peer))
  {
    ActAllOk(NewPeer(sendCapacity, receiveCapacity, isn, rtTimeout), before);
    var p := ActAll(NewPeer(sendCapacity, receiveCapacity, isn, rtTimeout), before).peer;
    if !Active(p) {
      hide Active, Act, PeerOk;
      if AnyErrors(p) || p.sender.finSent {
        forall after
          ensures !Active(ActAll(p, after).peer)
        {
          InactiveForever(p, after);
        }
      } else {
        InactiveAct(p, PushOut);
        ActOne(p, PushOut);
        assert Active(ActAll(p, [PushOut]).peer);
      }
    }
  }

  /** The reply rule. An active peer answers a segment that calls for a reply with at least one message;
      everything it sends carries the receiver's acknowledgment as it stands after the segment; if the
      push already sent something nothing is added, and no reply stays owed. */
  lemma ReplyRule(p: Peer, m: TCPMessage)
    requires Active(p)
    ensures var t := Receive(p, m);
            var answer := Rx.Send(Rx.Receive(p.receiver, m.sender));
            var pushed := Tx.Push(Tx.Receive(p.sender, m.receiver)).messages;
            && (forall x :: x in t.messages ==> x.receiver == answer)
            && !t.peer.needSend
            && (pushed != [] ==> |t.messages| == |pushed|)
            && (pushed == [] ==> |t.messages| == if p.needSend || CallsForReply(p, m.sender) then 1 else 0)
            && (forall i :: 0 <= i < |pushed| ==> t.messages[i].sender == pushed[i])
  {
    hide Rx.Send, Rx.Receive, Tx.Receive, Tx.Push, CallsForReply;
  }

  lemma OccupiesNumbers(m: SenderMessage)
    ensures Length(m) > 0 <==> m.syn || m.fin || m.payload != []
  {
  }

  /** What calls for a reply, on the message's own fields. */
  lemma CallsIff(p: Peer, m: SenderMessage)
    ensures CallsForReply(p, m)
            <==> m.syn || m.fin || m.payload != []
                 || (p.receiver.isInit && m.seqno == Wrap(Rx.AbsAckno(p.receiver) - 1, p.receiver.isn))
  {
    OccupiesNumbers(m);
    WrapBefore(m.seqno, Rx.AbsAckno(p.receiver), p.receiver.isn);
    hide Wrap, U32, Rx.AbsAckno, Rx.Window, Length;
  }

  /** Between actions no reply is owed. */
  lemma ActSettles(p: Peer, a: PeerAction)
    requires !p.needSend
    ensures !Act(p, a).peer.needSend
  {
    hide Tx.Push, Tx.Tick, Tx.Receive, Rx.Send, Rx.Receive, Active, CallsForReply;
  }

  lemma {:induction false} ActAllSettles(p: Peer, actions: seq<PeerAction>)
    requires !p.needSend
    ensures !ActAll(p, actions).peer.needSend
    decreases |actions|
  {
    if actions != [] {
      ActSettles(p, actions[0]);
      hide Act;
      ActAllSettles(Act(p, actions[0]).peer, actions[1..]);
    }
  }

  /** The empty segment under the first unsent number. */
  function EmptySegment(s: Tx.Sender): SenderMessage {
    SenderMessage(Wrap(s.expAckno, s.isn), false, [], false, s.input.error)
  }

  function SegmentsOf(messages: seq<TCPMessage>): seq<SenderMessage> {
    seq(|messages|, i requires 0 <= i < |messages| => messages[i].sender)
  }

  /** Does the segment hold SYN, FIN or data, or, once SYN has been seen, the number just below the acknowledgment? */
  predicate WantsReply(r: Rx.Receiver, m: SenderMessage) {
    || m.syn || m.fin || m.payload != []
    || (r.isInit && m.seqno == Wrap(Rx.AbsAckno(r) - 1, r.isn))
  }

  /** p answers m with t: what its sender pushes, or one empty segment if that is nothing and a reply is wanted, and
      nothing else. All of it carries the acknowledgment as it stands after m. */
  ghost predicate Answers(p: Peer, m: TCPMessage, t: PeerModel.Sent) {
    var r := Rx.Receive(p.receiver, m.sender);
    var pushed := Tx.Push(Tx.Receive(p.sender, m.receiver));
    && t.peer.receiver == r && t.peer.sender == pushed.sender
    && SegmentsOf(t.messages)
       == (if pushed.messages != [] then pushed.messages
           else if WantsReply(p.receiver, m.sender) then [EmptySegment(pushed.sender)]
           else [])
    && (forall x :: x in t.messages ==>
          && x.receiver == Rx.Send(r)
          && x.receiver.ackno == if r.isInit then Some(Wrap(Rx.AbsAckno(r), r.isn)) else None)
  }

  lemma ActiveAnswers(p: Peer, m: TCPMessage)
    requires Active(p) && !p.needSend
    ensures Answers(p, m, Receive(p, m))
  {
    CallsIff(p, m.sender);
    hide Rx.Receive, Tx.Receive, Tx.Push, CallsForReply, Active, Wrap, Rx.AbsAckno;
  }

  /** When a peer answers, over any run of a new peer: an active peer pushes, replies if the message wants a reply and
      the push said nothing, and adds nothing else. */
  lemma AnswersIff(sendCapacity: nat, receiveCapacity: nat, isn: u32, rtTimeout: u16, before: seq<PeerAction>,
                   m: TCPMessage)
    ensures var p := ActAll(NewPeer(sendCapacity, receiveCapacity, isn, rtTimeout), before).peer;
            Active(p) ==> Answers(p, m, Act(p, Incoming(m)))
  {
    hide ActAll, Active, Answers, Receive;
    var p := ActAll(NewPeer(sendCapacity, receiveCapacity, isn, rtTimeout), before).peer;
    ActAllSettles(NewPeer(sendCapacity, receiveCapacity, isn, rtTimeout), before);
    if Active(p) {
      ActiveAnswers(p, m);
    }
  }

  // ----- lingering -----

  /** Both streams are over and everything sent has been acknowledged. */
  predicate Done(p: Peer) {
    && !AnyErrors(p) && Tx.InFlight(p.sender) == 0 && Stream.Finished(p.sender.input)
    && p.receiver.reassembly.output.closed
  }

  function Total(ticks: seq<u64>): nat {
    if ticks == [] then 0 else ticks[0] + Total(ticks[1..])
  }

  function TickAll(p: Peer, ticks: seq<u64>): Peer
    decreases |ticks|
  {
    if ticks == [] then p else TickAll(PeerModel.Tick(p, ticks[0]).peer, ticks[1..])
  }

  /** A peer that is done and hears nothing more stays active exactly while it has to linger and fewer than ten
      initial timeouts of ticks have passed since the last receipt. */
  lemma {:induction false} LingersExactly(p: Peer, ticks: seq<u64>)
    requires Done(p) && Structured(p.sender)
    ensures Active(TickAll(p, ticks)) <==> p.linger && p.time + Total(ticks) < p.lastReceipt + 10 * p.rtTimeout
    decreases |ticks|
  {
    if ticks != [] {
      TickRetransmits(p.sender, ticks[0]);
      LingersExactly(PeerModel.Tick(p, ticks[0]).peer, ticks[1..]);
    }
  }

  /** A peer whose inbound stream ended while its outbound stream was not finished does not linger: having
      received anything then, it is inactive as soon as it is done. */
  lemma PassiveCloser(p: Peer, m: TCPMessage)
    requires Active(p) && p.receiver.reassembly.output.closed && !Stream.Finished(p.sender.input)
    ensures var t := Receive(p, m).peer;
            !t.linger && t.lastReceipt == p.time && (Done(t) ==> !Active(t))
  {
    hide Rx.Send, Rx.Receive, Tx.Receive, Tx.Push, CallsForReply;
  }

  // ----- activity over runs -----

  /** What matters of the past of a peer: the milliseconds that have passed, those that had passed when the last
      message was taken in, and whether a message has been taken in when the inbound stream had ended and the
      outbound one was not finished. */
  datatype Past = Past(clock: nat, heardAt: nat, endedFirst: bool)

  predicate OutboundFinished(p: Peer) {
    p.sender.input.closed && p.sender.input.removed == |p.sender.input.history|
  }

  function Remember(p: Peer, a: PeerAction, past: Past): Past {
    match a
    case Elapse(ms) => past.(clock := past.clock + ms)
    case Incoming(_) =>
      if Active(p) then
        Past(past.clock, past.clock,
             past.endedFirst || (p.receiver.reassembly.output.closed && !OutboundFinished(p)))
      else past
    case _ => past
  }

  function RunPast(p: Peer, actions: seq<PeerAction>, past: Past): Past
    decreases |actions|
  {
    if actions == [] then past else RunPast(Act(p, actions[0]).peer, actions[1..], Remember(p, actions[0], past))
  }

  ghost predicate Remembers(p: Peer, past: Past) {
    p.time == past.clock && p.lastReceipt == past.heardAt && p.linger == !past.endedFirst
  }

  lemma ActRemembers(p: Peer, a: PeerAction, past: Past)
    requires Remembers(p, past)
    ensures Remembers(Act(p, a).peer, Remember(p, a, past)) && Act(p, a).peer.rtTimeout == p.rtTimeout
  {
    hide Tx.Push, Tx.Tick, Tx.Receive, Rx.Send, Rx.Receive, Active, CallsForReply;
  }

  lemma {:induction false} RunRemembers(p: Peer, actions: seq<PeerAction>, past: Past)
    requires Remembers(p, past)
    ensures Remembers(ActAll(p, actions).peer, RunPast(p, actions, past))
    ensures ActAll(p, actions).peer.rtTimeout == p.rtTimeout
    decreases |actions|
  {
    if actions != [] {
      ActRemembers(p, actions[0], past);
      hide Act, Remembers, Remember;
      RunRemembers(Act(p, actions[0]).peer, actions[1..], Remember(p, actions[0], past));
    }
  }

  /** When a peer is active, over any run of a new peer: neither stream has an error, and something is outstanding, or
      one of the streams is not over, or it lingers: a message has been taken in, or the peer has been made, less than
      ten timeouts ago, and never has the inbound stream been seen to end first. */
  lemma ActiveIff(sendCapacity: nat, receiveCapacity: nat, isn: u32, rtTimeout: u16, actions: seq<PeerAction>)
    ensures var p0 := NewPeer(sendCapacity, receiveCapacity, isn, rtTimeout);
            var p, past := ActAll(p0, actions).peer, RunPast(p0, actions, Past(0, 0, false));
            Active(p)
            <==> !p.receiver.reassembly.output.error && !p.sender.input.error
                 && (p.sender.ost != [] || !OutboundFinished(p) || !p.receiver.reassembly.output.closed
                     || (!past.endedFirst && past.clock < past.heardAt + 10 * rtTimeout))
  {
    var p0 := NewPeer(sendCapacity, receiveCapacity, isn, rtTimeout);
    ActAllOk(p0, actions);
    RunRemembers(p0, actions, Past(0, 0, false));
    var p := ActAll(p0, actions).peer;
    hide ActAll, RunPast, Structured, NewPeer;
    OutstandingIff(p.sender);
  }

  lemma OutstandingIff(s: Tx.Sender)
    requires Structured(s)
    ensures s.ost != [] <==> Tx.InFlight(s) != 0
  {
    TickRetransmits(s, 0);
  }

  // ----- reset -----

  lemma {:induction false} FillRst(s: Tx.Sender, room: nat)
    ensures var f := Tx.Fill(s, room);
            f.sender.input.error == s.input.error && forall m :: m in f.messages ==> m.rst == s.input.error
    decreases Tx.Unsent(s)
  {
    if Tx.Unsent(s) > 0 && room > 0 {
      Tx.SegmentProgress(s, room);
      Tx.FillStep(s, room);
      FillRst(Tx.AfterSegment(s, room), room - Length(Tx.Segment(s, room)));
    }
  }

  lemma PushRst(s: Tx.Sender)
    ensures var f := Tx.Push(s);
            f.sender.input.error == s.input.error && forall m :: m in f.messages ==> m.rst == s.input.error
  {
    if s.lastAckno + Tx.Effective(s.wnd) > s.expAckno {
      FillRst(s, s.lastAckno + Tx.Effective(s.wnd) - s.expAckno);
    }
  }

  ghost predicate SameInbound(r: Rx.Receiver, q: Rx.Receiver) {
    && r.reassembly.output.history == q.reassembly.output.history
    && r.isInit == q.isInit && r.isn == q.isn && Rx.AbsAckno(r) == Rx.AbsAckno(q) && Rx.Window(r) == Rx.Window(q)
  }

  ghost predicate SameOutbound(s: Tx.Sender, q: Tx.Sender) {
    && s.input.history == q.input.history && s.input.removed == q.input.removed
    && s.lastAckno == q.lastAckno && s.expAckno == q.expAckno && s.wnd == q.wnd && s.ost == q.ost
  }

  /** A reset in either half of a message makes the peer inactive, for good by inactivity being absorbing, and
      whatever it still says in answer carries a reset in one half. What travels with a reset is not taken in:
      nothing is written out or acknowledged for it, and nothing of the sender's window changes. */
  lemma ResetEnds(p: Peer, m: TCPMessage)
    requires Active(p) && (m.sender.rst || m.receiver.rst)
    ensures var t := Receive(p, m);
            !Active(t.peer) && AnyErrors(t.peer)
            && forall x :: x in t.messages ==> x.sender.rst || x.receiver.rst
    ensures m.sender.rst ==> SameInbound(Receive(p, m).peer.receiver, p.receiver)
    ensures m.receiver.rst ==> SameOutbound(Tx.Receive(p.sender, m.receiver), p.sender)
  {
    var s := Tx.Receive(p.sender, m.receiver);
    PushRst(s);
    if m.sender.rst {
      ReplyRule(p, m);
    } else {
      hide Tx.Push, Rx.Receive, Rx.Send, CallsForReply;
      var pushed := PeerModel.Push(Digest(p, m));
      forall i | 0 <= i < |pushed.messages|
        ensures pushed.messages[i].sender.rst
      {
        assert pushed.messages[i].sender == Tx.Push(s).messages[i];
      }
      assert pushed.peer.sender.input.error;
    }
  }
}
