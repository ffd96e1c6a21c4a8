/** Two full peers and a network between them: each direction is one of the connections proved safe. */
module Duplex {
  import opened Numbers
  import opened Messages
  import opened PeerModel
  import opened PeerTheory
  import opened Connection
  import opened ConnectionTheory
  import Rx = ReceiverModel
  import Stream = StreamModel
  import Tx = SenderModel
  import Events = SenderTheory

  /** What happened in one direction: whether all replies were honest, and whether its sender was told a window
      early. */
  datatype Link = Link(honest: bool, early: bool)

  /** Peers a and b, everything either has transmitted, and the two directions. */
  datatype Pair = Pair(a: Peer, b: Peer, fromA: set<TCPMessage>, fromB: set<TCPMessage>, ab: Link, ba: Link)

  function Segments(ms: set<TCPMessage>): set<SenderMessage> {
    set m | m in ms :: m.sender
  }

  function Acks(ms: set<TCPMessage>): set<ReceiverMessage> {
    set m | m in ms :: m.receiver
  }

  /** The direction from a to b. */
  function Forward(d: Pair): System {
    System(d.a.sender, d.b.receiver, Segments(d.fromA), Acks(d.fromB), d.ab.honest, d.ab.early)
  }

  function Flip(d: Pair): Pair {
    Pair(d.b, d.a, d.fromB, d.fromA, d.ba, d.ab)
  }

  /** The direction from b to a. */
  function Backward(d: Pair): System {
    Forward(Flip(d))
  }

  /** Streams stay below 2^31 - 2 bytes and only transmitted messages are delivered. A message without acknowledgment
      number reaches an active peer only where it does not misplace its sender's later segments, and what overtakes
      the SYN of a peer that was told a window early is put at its own index or dropped. */
  predicate Permitted(d: Pair, x: PeerAction) {
    match x
    case WriteOut(data) => |d.a.sender.input.history| + |data| < TWO31 - 2
    case Incoming(m) =>
      && m in d.fromB
      && (Active(d.a) ==>
            && CarefulAck(Forward(d), DeliverAck(m.receiver))
            && CarefulData(Backward(d), DeliverSegment(m.sender)))
    case _ => true
  }

  /** Something happens at peer a. */
  function StepA(d: Pair, x: PeerAction): Pair {
    var s := Act(d.a, x);
    d.(a := s.peer, fromA := d.fromA + Elements(s.messages),
       ba := d.ba.(honest := d.ba.honest && (s.messages == [] || !CountsFinEarly(s.peer.receiver))),
       ab := d.ab.(early := d.ab.early || (x.Incoming? && Active(d.a) && x.msg.receiver.ackno.None?)))
  }

  /** Something happens at one of the peers. */
  datatype PairAction = AtA(action: PeerAction) | AtB(action: PeerAction)

  function Next(d: Pair, x: PairAction): Pair {
    match x
    case AtA(action) => StepA(d, action)
    case AtB(action) => Flip(StepA(Flip(d), action))
  }

  predicate Enabled(d: Pair, x: PairAction) {
    match x
    case AtA(action) => Permitted(d, action)
    case AtB(action) => Permitted(Flip(d), action)
  }

  function Exec(d: Pair, xs: seq<PairAction>): Pair
    decreases |xs|
  {
    if xs == [] then d else Exec(Next(d, xs[0]), xs[1..])
  }

  predicate AllEnabled(d: Pair, xs: seq<PairAction>)
    decreases |xs|
  {
    xs == [] || (Enabled(d, xs[0]) && AllEnabled(Next(d, xs[0]), xs[1..]))
  }

  datatype Config = Config(sendCapacity: nat, receiveCapacity: nat, isn: u32, rtTimeout: u16)

  function MakePeer(c: Config): Peer {
    NewPeer(c.sendCapacity, c.receiveCapacity, c.isn, c.rtTimeout)
  }

  function NewPair(a: Config, b: Config): Pair {
    Pair(MakePeer(a), MakePeer(b), {}, {}, Link(true, false), Link(true, false))
  }

  ghost predicate PairInv(d: Pair) {
    Inv(Forward(d)) && Inv(Backward(d))
  }

  // ----- what a step is in each direction -----

  /** What attaching acknowledgments to segments adds to the network, seen in either direction. */
  lemma AttachAdds(ms: set<TCPMessage>, p: Peer, segments: seq<SenderMessage>)
    ensures var grown := ms + Elements(Attach(p, segments).messages);
            && Segments(grown) == Segments(ms) + Elements(segments)
            && Acks(grown) == Acks(ms) + (if segments == [] then {} else {Rx.Send(p.receiver)})
  {
    var added := Attach(p, segments).messages;
    var grown := ms + Elements(added);
    forall m | m in segments
      ensures m in Segments(grown)
    {
      var i :| 0 <= i < |segments| && segments[i] == m;
      assert added[i] in grown && added[i].sender == m;
    }
    forall m | m in Segments(ms)
      ensures m in Segments(grown)
    {
      var t :| t in ms && t.sender == m;
      assert t in grown;
    }
    forall m | m in Acks(ms)
      ensures m in Acks(grown)
    {
      var t :| t in ms && t.receiver == m;
      assert t in grown;
    }
    if segments != [] {
      assert added[0] in grown && added[0].receiver == Rx.Send(p.receiver);
    }
  }

  /** The two directions after peer a's sender has become t, transmitting the given segments with a's present
      acknowledgment. */
  function Transmit(d: Pair, t: Tx.Sender, segments: seq<SenderMessage>): Pair {
    var s := Attach(d.a.(sender := t), segments);
    d.(a := s.peer, fromA := d.fromA + Elements(s.messages),
       ba := d.ba.(honest := d.ba.honest && (segments == [] || !CountsFinEarly(d.a.receiver))))
  }

  /** In the other direction that is a reply, or nothing. */
  lemma TransmitBackward(d: Pair, t: Tx.Sender, segments: seq<SenderMessage>)
    requires Inv(Backward(d))
    ensures Inv(Backward(Transmit(d, t, segments)))
  {
    hide Inv, Rx.Send;
    AttachAdds(d.fromA, d.a.(sender := t), segments);
    if segments == [] {
      assert Backward(Transmit(d, t, segments)) == Backward(d);
    } else {
      NextInv(Backward(d), ReceiverReply);
      assert Backward(Transmit(d, t, segments)) == Connection.Next(Backward(d), ReceiverReply);
    }
  }

  lemma TransmitForward(d: Pair, t: Tx.Sender, segments: seq<SenderMessage>)
    ensures Forward(Transmit(d, t, segments))
         == Forward(d).(sender := t, segments := Segments(d.fromA) + Elements(segments))
  {
    hide Rx.Send;
    AttachAdds(d.fromA, d.a.(sender := t), segments);
  }

  lemma PushPair(d: Pair)
    requires PairInv(d)
    ensures PairInv(Transmit(d, Tx.Push(d.a.sender).sender, Tx.Push(d.a.sender).messages))
  {
    hide Inv, Transmit, Tx.Push;
    var s := Tx.Push(d.a.sender);
    TransmitForward(d, s.sender, s.messages);
    TransmitBackward(d, s.sender, s.messages);
    NextInv(Forward(d), SenderPush);
  }

  lemma TickPair(d: Pair, ms: u64)
    requires PairInv(d)
    ensures PairInv(Transmit(d, Tx.Tick(d.a.sender, ms).sender, Tx.Tick(d.a.sender, ms).messages))
  {
    hide Inv, Transmit, Tx.Tick;
    var s := Tx.Tick(d.a.sender, ms);
    TransmitForward(d, s.sender, s.messages);
    TransmitBackward(d, s.sender, s.messages);
    NextInv(Forward(d), SenderTick(ms));
  }

  lemma EmptyPair(d: Pair)
    requires PairInv(d)
    ensures PairInv(Transmit(d, d.a.sender, [Tx.EmptyMessage(d.a.sender)]))
  {
    hide Inv, Transmit, Tx.EmptyMessage;
    var e := Tx.EmptyMessage(d.a.sender);
    TransmitForward(d, d.a.sender, [e]);
    TransmitBackward(d, d.a.sender, [e]);
    NextInv(Forward(d), SenderEmpty);
    assert Elements([e]) == {e};
  }

  /** The state after an active peer a has taken in a message, before it answers. */
  function Digested(d: Pair, m: TCPMessage): Pair {
    d.(a := Digest(d.a, m), ab := d.ab.(early := d.ab.early || m.receiver.ackno.None?))
  }

  lemma DigestPair(d: Pair, m: TCPMessage)
    requires PairInv(d)
    ensures Permitted(d, Incoming(m)) && Active(d.a) ==> PairInv(Digested(d, m))
  {
    hide Inv, Rx.Receive, Tx.Receive, CallsForReply, Active, Events.Harmless;
    if Permitted(d, Incoming(m)) && Active(d.a) {
      assert m.sender in Segments(d.fromB) && m.receiver in Acks(d.fromB);
      NextInv(Forward(d), DeliverAck(m.receiver));
      NextInv(Backward(d), DeliverSegment(m.sender));
      assert Segments(d.fromA) + Elements([]) == Segments(d.fromA);
    }
  }

  /** What an active peer does with a message is to digest it, push, and reply if that is still owed. */
  lemma IncomingIs(d: Pair, m: TCPMessage)
    requires Active(d.a)
    ensures var e := Digested(d, m);
            var p := Transmit(e, Tx.Push(e.a.sender).sender, Tx.Push(e.a.sender).messages);
            StepA(d, Incoming(m))
            == if p.a.needSend then Transmit(p, p.a.sender, [Tx.EmptyMessage(p.a.sender)]) else p
  {
    hide Active, Rx.Receive, Tx.Receive, Tx.Push, CallsForReply, CountsFinEarly, Rx.Send, Tx.EmptyMessage;
    var e := Digested(d, m);
    var pushed := PeerModel.Push(e.a);
    assert d.fromA + Elements([]) == d.fromA;
    if pushed.peer.needSend {
      var reply := Attach(pushed.peer, [Tx.EmptyMessage(pushed.peer.sender)]);
      assert Elements(pushed.messages + reply.messages) == Elements(pushed.messages) + Elements(reply.messages);
      assert d.fromA + Elements(pushed.messages + reply.messages)
          == (d.fromA + Elements(pushed.messages)) + Elements(reply.messages);
    }
  }

  lemma IncomingPair(d: Pair, m: TCPMessage)
    requires PairInv(d) && Permitted(d, Incoming(m))
    ensures PairInv(StepA(d, Incoming(m)))
  {
    if Active(d.a) {
      IncomingIs(d, m);
      DigestPair(d, m);
      hide PairInv, Digested, Transmit, StepA, Tx.Push;
      var e := Digested(d, m);
      PushPair(e);
      var p := Transmit(e, Tx.Push(e.a.sender).sender, Tx.Push(e.a.sender).messages);
      if p.a.needSend {
        EmptyPair(p);
      }
    } else {
      hide Inv, Active;
      assert StepA(d, Incoming(m)) == d by {
        assert d.fromA + Elements([]) == d.fromA;
      }
    }
  }

  /** Whatever happens at a peer keeps both directions' invariants. */
  lemma StepAInv(d: Pair, x: PeerAction)
    requires PairInv(d) && Permitted(d, x)
    ensures PairInv(StepA(d, x))
  {
    hide Inv, Tx.Push, Tx.Tick, Rx.Send, CountsFinEarly;
    assert d.fromA + Elements([]) == d.fromA && Segments(d.fromA) + Elements([]) == Segments(d.fromA);
    match x
    case WriteOut(data) =>
      NextInv(Forward(d), AppWrite(data));
      assert Forward(StepA(d, x)) == Connection.Next(Forward(d), AppWrite(data));
    case CloseOut =>
      NextInv(Forward(d), AppClose);
      assert Forward(StepA(d, x)) == Connection.Next(Forward(d), AppClose);
    case PushOut =>
      PushPair(d);
      assert StepA(d, x) == Transmit(d, Tx.Push(d.a.sender).sender, Tx.Push(d.a.sender).messages);
    case ReadIn(len) =>
      NextInv(Backward(d), AppRead(len));
      assert Backward(StepA(d, x)) == Connection.Next(Backward(d), AppRead(len));
    case Incoming(m) =>
      IncomingPair(d, m);
    case Elapse(ms) =>
      var e := d.(a := d.a.(time := d.a.time + ms));
      TickPair(e, ms);
      assert StepA(d, x) == Transmit(e, Tx.Tick(d.a.sender, ms).sender, Tx.Tick(d.a.sender, ms).messages);
  }

  // ----- runs -----

  lemma NewPairInv(a: Config, b: Config)
    ensures PairInv(NewPair(a, b))
  {
    hide Inv;
    NewSystemInv(a.sendCapacity, b.receiveCapacity, a.isn, a.rtTimeout);
    NewSystemInv(b.sendCapacity, a.receiveCapacity, b.isn, b.rtTimeout);
    assert Forward(NewPair(a, b)) == NewSystem(a.sendCapacity, b.receiveCapacity, a.isn, a.rtTimeout);
    assert Backward(NewPair(a, b)) == NewSystem(b.sendCapacity, a.receiveCapacity, b.isn, b.rtTimeout);
  }

  lemma {:induction false} ExecPairInv(d: Pair, xs: seq<PairAction>)
    requires PairInv(d)
    ensures AllEnabled(d, xs) ==> PairInv(Exec(d, xs))
    decreases |xs|
  {
    hide Inv, StepA, Permitted;
    if xs != [] && AllEnabled(d, xs) {
      match xs[0] {
        case AtA(x) => StepAInv(d, x);
        case AtB(x) =>
          StepAInv(Flip(d), x);
          assert Flip(Flip(StepA(Flip(d), x))) == StepA(Flip(d), x);
      }
      assert PairInv(Next(d, xs[0]));
      hide PairInv, Next, Enabled;
      ExecPairInv(Next(d, xs[0]), xs[1..]);
    }
  }

  /** Two peers, both directions: in every reachable state either output is a prefix of what was written at the other
      end, and closed only when it is all of it; and in a direction in which all replies were honest, every
      acknowledged byte has been delivered. */
  lemma PairSafety(a: Config, b: Config, xs: seq<PairAction>)
    requires AllEnabled(NewPair(a, b), xs)
    ensures var d := Exec(NewPair(a, b), xs);
            && Safe(Forward(d)) && Safe(Backward(d))
            && (d.ab.honest ==> AcksHold(Forward(d))) && (d.ba.honest ==> AcksHold(Backward(d)))
  {
    NewPairInv(a, b);
    ExecPairInv(NewPair(a, b), xs);
    hide Safe, AcksHold, Inv, Exec;
    var d := Exec(NewPair(a, b), xs);
    SafeIfInv(Forward(d));
    SafeIfInv(Backward(d));
    HonestAcksHold(Forward(d));
    HonestAcksHold(Backward(d));
  }

  // ----- closing -----

  /** Everything the sender of one direction was ever given to write has been written out at the other end. */
  ghost predicate AllDelivered(y: System) {
    y.receiver.reassembly.output.history == y.sender.input.history
  }

  /** A sender with nothing in flight and a finished input, not back at the start, has sent and had acknowledged all
      it was given. */
  lemma QuietDelivers(y: System)
    requires Inv(y) && y.honest && y.sender.expAckno > 0
    requires Tx.InFlight(y.sender) == 0 && Stream.Finished(y.sender.input)
    ensures AllDelivered(y)
  {
    SentAll(y);
    HonestAcksHold(y);
    AcksHoldIff(y);
    SafeIfInv(y);
    hide Inv, AcksHold;
    assert SentBytes(y.sender) == y.sender.input.history;
  }

  lemma SentAll(y: System)
    requires Inv(y) && y.sender.expAckno > 0
    ensures y.sender.expAckno == FirstUnsent(y.sender)
  {
  }

  /** What peer a can rely on when it is inactive: the other end has closed its stream and all of it is in a's
      output; a's own stream is closed too, and if its acknowledgments were honest and its sender is not back at the
      start, all of it is in the other end's output. */
  ghost predicate ClosedWell(d: Pair) {
    !Active(d.a) ==>
      && d.b.sender.input.closed && AllDelivered(Backward(d))
      && d.a.sender.input.closed
      && (d.ab.honest && d.a.sender.expAckno > 0 ==> AllDelivered(Forward(d)))
  }

  lemma InactiveHas(d: Pair)
    requires PairInv(d)
    ensures ClosedWell(d)
  {
    if !Active(d.a) {
      NoErrors(Forward(d));
      NoErrors(Backward(d));
      SafeIfInv(Backward(d));
      hide Inv;
      if d.ab.honest && d.a.sender.expAckno > 0 {
        QuietDelivers(Forward(d));
      }
    }
  }

  /** Inactivity means a clean close, in every reachable state of two peers and for either of them. */
  lemma PairCloses(a: Config, b: Config, xs: seq<PairAction>)
    requires AllEnabled(NewPair(a, b), xs)
    ensures var d := Exec(NewPair(a, b), xs);
            ClosedWell(d) && ClosedWell(Flip(d))
  {
    hide ClosedWell, Inv, Exec;
    NewPairInv(a, b);
    ExecPairInv(NewPair(a, b), xs);
    var d := Exec(NewPair(a, b), xs);
    assert Flip(Flip(d)) == d;
    InactiveHas(d);
    InactiveHas(Flip(d));
  }

  lemma NoErrors(y: System)
    requires Inv(y)
    ensures !y.sender.input.error && !y.receiver.reassembly.output.error
  {
  }
}
