/** Runs of the connection that show why its two assumptions are there: without either of them the output need not be
    a prefix of what was written. */
module UnsafeRuns {
  import opened Numbers
  import opened Messages
  import opened Wrapping
  import opened ReassemblerModel
  import opened SenderModel
  import opened Connection
  import opened ConnectionTheory
  import opened ConnectionRuns
  import Rewinding
  import Stream = StreamModel
  import Rx = ReceiverModel
  import Tx = SenderTheory

  /** What is possible and meets those of the two assumptions that are asked for. */
  predicate Allowed(y: System, a: Action, acks: bool, data: bool) {
    Possible(y, a) && (acks ==> CarefulAck(y, a)) && (data ==> CarefulData(y, a))
  }

  predicate AllAllowed(y: System, actions: seq<Action>, acks: bool, data: bool)
    decreases |actions|
  {
    actions == [] || (Allowed(y, actions[0], acks, data) && AllAllowed(Next(y, actions[0]), actions[1..], acks, data))
  }

  /** With both, a run is one of those proved safe. */
  lemma {:induction false} BothIsEnabled(y: System, actions: seq<Action>)
    ensures AllAllowed(y, actions, true, true) <==> AllEnabled(y, actions)
    decreases |actions|
  {
    if actions != [] {
      hide Next, Possible, CarefulAck, CarefulData;
      BothIsEnabled(Next(y, actions[0]), actions[1..]);
    }
  }

  lemma AllowedFirst(y: System, actions: seq<Action>, acks: bool, data: bool)
    requires actions != []
    ensures AllAllowed(y, actions, acks, data)
            <==> Allowed(y, actions[0], acks, data) && AllAllowed(Next(y, actions[0]), actions[1..], acks, data)
    ensures Exec(y, actions) == Exec(Next(y, actions[0]), actions[1..])
  {
    hide Next, Allowed;
  }

  lemma AllowedFour(y: System, a: Action, b: Action, c: Action, d: Action, acks: bool, data: bool)
    ensures var y1 := Next(y, a);
            var y2 := Next(y1, b);
            var y3 := Next(y2, c);
            && Exec(y, [a, b, c, d]) == Next(y3, d)
            && ((Allowed(y, a, acks, data) && Allowed(y1, b, acks, data) && Allowed(y2, c, acks, data)
                 && Allowed(y3, d, acks, data)) ==> AllAllowed(y, [a, b, c, d], acks, data))
  {
    hide Next, Allowed;
    var y3 := Next(Next(Next(y, a), b), c);
    assert [a, b, c, d][1..] == [b, c, d] && [b, c, d][1..] == [c, d] && [c, d][1..] == [d] && [d][1..] == [];
    AllowedFirst(y3, [d], acks, data);
    AllowedFirst(Next(Next(y, a), b), [c, d], acks, data);
    AllowedFirst(Next(y, a), [b, c, d], acks, data);
    AllowedFirst(y, [a, b, c, d], acks, data);
    assert AllAllowed(Next(y3, d), [], acks, data) && Exec(Next(y3, d), []) == Next(y3, d);
    hide Exec, AllAllowed;
  }

  lemma {:induction false} AllowedAppend(y: System, a: seq<Action>, b: seq<Action>, acks: bool, data: bool)
    requires AllAllowed(y, a, acks, data) && AllAllowed(Exec(y, a), b, acks, data)
    ensures AllAllowed(y, a + b, acks, data) && Exec(y, a + b) == Exec(Exec(y, a), b)
    decreases |a|
  {
    hide Next, Allowed;
    if a == [] {
      assert a + b == b;
    } else {
      assert (a + b)[1..] == a[1..] + b;
      AllowedAppend(Next(y, a[0]), a[1..], b, acks, data);
    }
  }

  // ----- both runs begin alike -----

  /** The receiver's window, offered before it has seen SYN. */
  function Offer(): ReceiverMessage {
    ReceiverMessage(None, 10, false)
  }

  function SynWith(isn: u32, x: byte): SenderMessage {
    SenderMessage(isn, true, [x], false, false)
  }

  /** A sender that knows the window and has one byte to send. */
  function Told(isn: u32, x: byte): Sender {
    NewSender(10, isn, 1000).(wnd := 10, input := Stream.StreamState(10, [x], 0, 0, false, false))
  }

  /** SYN and the byte have been sent. */
  function Begun(isn: u32, x: byte): System {
    System(AfterSegment(Told(isn, x), 10), Rx.NewReceiver(10), {SynWith(isn, x)}, {Offer()}, true, true)
  }

  function Beginning(x: byte): seq<Action> {
    [ReceiverReply, DeliverAck(Offer()), AppWrite([x]), SenderPush]
  }

  /** The receiver's offer has been made, and has reached the sender. */
  function Offered(isn: u32): System {
    NewSystem(10, 10, isn, 1000).(acks := {Offer()})
  }

  function OfferTaken(isn: u32): System {
    Offered(isn).(sender := NewSender(10, isn, 1000).(wnd := 10), early := true)
  }

  lemma OfferArrives(isn: u32)
    ensures Next(NewSystem(10, 10, isn, 1000), ReceiverReply) == Offered(isn)
    ensures Next(Offered(isn), DeliverAck(Offer())) == OfferTaken(isn)
    ensures Allowed(Offered(isn), DeliverAck(Offer()), true, true)
  {
    assert {} + {Offer()} == {Offer()};
    assert Offered(isn).segments + Elements([]) == {};
  }

  lemma ByteBegins(isn: u32, x: byte)
    ensures var y := OfferTaken(isn).(sender := Told(isn, x));
            && Next(OfferTaken(isn), AppWrite([x])) == y && Next(y, SenderPush) == Begun(isn, x)
    ensures Begun(isn, x).sender.input == Stream.StreamState(10, [x], 1, 1, false, false)
    ensures !Begun(isn, x).sender.finAcked && !Begun(isn, x).sender.finSent && Begun(isn, x).sender.isn == isn
  {
    Rewinding.PushOneByte(Told(isn, x), x);
    hide AfterSegment;
    assert Stream.Push(Stream.NewStream(10), [x]).history == [x];
    assert OfferTaken(isn).segments + Elements([]) == {};
    assert OfferTaken(isn).segments + Elements([SynWith(isn, x)]) == {SynWith(isn, x)};
  }

  lemma BeginningRun(isn: u32, x: byte)
    ensures AllAllowed(NewSystem(10, 10, isn, 1000), Beginning(x), true, true)
    ensures Exec(NewSystem(10, 10, isn, 1000), Beginning(x)) == Begun(isn, x)
    ensures Begun(isn, x).sender.input == Stream.StreamState(10, [x], 1, 1, false, false)
    ensures !Begun(isn, x).sender.finAcked && !Begun(isn, x).sender.finSent && Begun(isn, x).sender.isn == isn
  {
    OfferArrives(isn);
    ByteBegins(isn, x);
    assert |OfferTaken(isn).sender.input.history| == 0;
    hide Next, NewSystem, OfferTaken, Offered, Begun, Exec, AllAllowed;
    AllowedFour(NewSystem(10, 10, isn, 1000), ReceiverReply, DeliverAck(Offer()), AppWrite([x]), SenderPush, true, true);
  }

  // ----- a message without acknowledgment number in the middle of the stream -----

  function Restarting(isn: u32, y: byte): seq<Action> {
    [DeliverAck(Offer()), AppWrite([y]), SenderPush, DeliverSegment(SynWith(isn, y))]
  }

  lemma ReceiverTakes(isn: u32, y: byte)
    ensures Rx.Receive(Rx.NewReceiver(10), SynWith(isn, y)).reassembly.output.history == [y]
  {
    assert Stream.Push(Stream.NewStream(10), [y]).history == [y];
  }

  /** Without the first assumption: SYN and x are sent and lost; the offer arrives again and sends the sender back
      to the start; SYN and y arrive, and y is taken for the first byte. */
  lemma RewindIsUnsafe(isn: u32, x: byte, y: byte)
    requires x != y
    ensures var start := NewSystem(10, 10, isn, 1000);
            var actions := Beginning(x) + Restarting(isn, y);
            AllAllowed(start, actions, false, true) && !Safe(Exec(start, actions))
  {
    BeginningRun(isn, x);
    Weaken(NewSystem(10, 10, isn, 1000), Beginning(x));
    hide NewSystem, Begun;
    var z := Begun(isn, x);
    RestartingRun(isn, x, y);
    AllowedAppend(NewSystem(10, 10, isn, 1000), Beginning(x), Restarting(isn, y), false, true);
  }

  lemma {:induction false} Weaken(y: System, actions: seq<Action>)
    requires AllAllowed(y, actions, true, true)
    ensures AllAllowed(y, actions, false, true) && AllAllowed(y, actions, true, false)
    decreases |actions|
  {
    if actions != [] {
      hide Next;
      Weaken(Next(y, actions[0]), actions[1..]);
    }
  }

  /** The sender sent back to the start, and with another byte to send. */
  function Restarted(isn: u32, x: byte): Sender {
    Receive(Begun(isn, x).sender, Offer())
  }

  function RestartedWith(isn: u32, x: byte, y: byte): Sender {
    Tx.Step(Restarted(isn, x), Tx.Write([y])).sender
  }

  lemma Restarts(isn: u32, x: byte, y: byte)
    ensures var u := RestartedWith(isn, x, y);
            && SenderModel.Push(u) == Sent(AfterSegment(u, 10), [SynWith(isn, y)])
            && AfterSegment(u, 10).input.history == [x, y]
            && |Restarted(isn, x).input.history| == 1
  {
    BeginningRun(isn, x);
    Rewinding.RewindThenWrite(Begun(isn, x).sender, x, y);
    var u := RestartedWith(isn, x, y);
    Rewinding.PushOneByte(u, y);
    assert Restarted(isn, x).input == Begun(isn, x).sender.input;
    assert u.input.history == [x] + [y] == [x, y];
  }

  /** The system once SYN and the second byte have been sent. */
  function Resent(isn: u32, x: byte, y: byte): System {
    Begun(isn, x).(sender := AfterSegment(RestartedWith(isn, x, y), 10), segments := {SynWith(isn, x), SynWith(isn, y)})
  }

  lemma RestartingSteps(isn: u32, x: byte, y: byte)
    ensures var z1 := Begun(isn, x).(sender := Restarted(isn, x));
            var z2 := Begun(isn, x).(sender := RestartedWith(isn, x, y));
            && Next(Begun(isn, x), DeliverAck(Offer())) == z1
            && Next(z1, AppWrite([y])) == z2 && Next(z2, SenderPush) == Resent(isn, x, y)
  {
    Restarts(isn, x, y);
    hide AfterSegment, Receive, Told;
    var a, b := SynWith(isn, x), SynWith(isn, y);
    assert {a} + Elements([]) == {a};
    assert {a} + Elements([b]) == {a, b};
  }

  lemma RestartingRun(isn: u32, x: byte, y: byte)
    requires x != y
    ensures AllAllowed(Begun(isn, x), Restarting(isn, y), false, true)
    ensures !Safe(Exec(Begun(isn, x), Restarting(isn, y)))
  {
    var z, b := Begun(isn, x), SynWith(isn, y);
    RestartingSteps(isn, x, y);
    Restarts(isn, x, y);
    ReceiverTakes(isn, y);
    AllowedFour(z, DeliverAck(Offer()), AppWrite([y]), SenderPush, DeliverSegment(b), false, true);
    var z3 := Resent(isn, x, y);
    assert b in z3.segments && z3.receiver == Rx.NewReceiver(10) && Offer() in z.acks;
    assert z3.sender.input.history == [x, y];
    hide Receive, AfterSegment, Rx.Receive, Rx.NewReceiver, Resent, Restarted, RestartedWith;
    var w := Next(z3, DeliverSegment(b));
    assert w.receiver.reassembly.output.history == [y] && w.sender.input.history == [x, y];
    assert [x, y][0] == x && [y][0] == y;
  }

  // ----- data that overtakes SYN -----

  function Second(y: byte): SenderMessage {
    SenderMessage(3, false, [y], false, false)
  }

  /** The second byte is written, sent, arrives before SYN, then SYN arrives. */
  function Overtaking(x: byte, y: byte): seq<Action> {
    [AppWrite([y]), SenderPush, DeliverSegment(Second(y)), DeliverSegment(SynWith(1, x))]
  }

  /** A sender that starts at 1 and has sent SYN and one byte sends the next one under number 2. */
  lemma PushSecond(s: Sender, y: byte)
    requires s.expAckno == 2 && s.lastAckno == 0 && s.wnd == 10 && !s.finAcked && s.isn == 1
    requires Stream.Buffer(s.input) == [y] && !s.input.closed && !s.input.error
    ensures SenderModel.Push(s) == Sent(AfterSegment(s, 8), [Second(y)])
    ensures AfterSegment(s, 8).input.history == s.input.history
  {
    assert Segment(s, 8) == Second(y);
    FillStep(s, 8);
    FillDone(AfterSegment(s, 8), 7);
  }

  /** The receiver after the early byte, after SYN, and after the byte again. */
  function Misled(y: byte): Rx.Receiver {
    Rx.Receiver(NewReassembly(10).(segs := [SegValue(2, 3, [y], 0)]), 0, 3, false, false, false)
  }

  function MisledOpen(x: byte, y: byte): Rx.Receiver {
    Rx.Receiver(Reassembly(Stream.StreamState(10, [x], 0, 0, false, false), [SegValue(2, 3, [y], 0)], 1, 0, false),
                1, 0, true, false, false)
  }

  lemma ReceiverMisled(x: byte, y: byte)
    ensures Rx.Receive(Rx.NewReceiver(10), Second(y)) == Misled(y)
    ensures Rx.Receive(Misled(y), SynWith(1, x)) == MisledOpen(x, y)
  {
    var g := SegValue(2, 3, [y], 0);
    assert Unwrap(3, 0, 0) == 3;
    hide Wrap, Unwrap;
    assert Emplace([], g) == [g];
    assert Insert(NewReassembly(10), 2, [y], false) == Misled(y).reassembly;
    assert Stream.Push(Stream.NewStream(10), [x]).history == [x];
    assert Insert(Misled(y).reassembly, 0, [x], false) == MisledOpen(x, y).reassembly;
  }

  lemma ByteTwice(x: byte, y: byte)
    ensures Rx.Receive(MisledOpen(x, y), Second(y)).reassembly.output.history == [x, y, y]
  {
    assert Unwrap(3, 1, 0) == 2;
    hide Wrap, Unwrap;
    var r := MisledOpen(x, y).reassembly;
    var p := r.(output := r.output.(history := [x, y]), next := 2);
    assert Place(r, 1, [y]) == p by {
      assert [x] + [y] == [x, y];
    }
    var q := p.(output := p.output.(history := [x, y, y]), segs := [], next := 3);
    assert DrainStep(p) == q by {
      assert [x, y] + [y] == [x, y, y];
    }
    assert Drain(p) == Drain(q) == q;
  }

  /** The sender once the second byte has been written. */
  function SecondWritten(x: byte, y: byte): Sender {
    Tx.Step(Begun(1, x).sender, Tx.Write([y])).sender
  }

  function SecondSent(x: byte, y: byte): System {
    Begun(1, x).(sender := AfterSegment(SecondWritten(x, y), 8), segments := {SynWith(1, x), Second(y)})
  }

  lemma SendsSecond(x: byte, y: byte)
    ensures Next(Begun(1, x), AppWrite([y])) == Begun(1, x).(sender := SecondWritten(x, y))
    ensures Next(Begun(1, x).(sender := SecondWritten(x, y)), SenderPush) == SecondSent(x, y)
    ensures SecondSent(x, y).sender.input.history == [x, y] && |Begun(1, x).sender.input.history| == 1
  {
    BeginningRun(1, x);
    var z, u := Begun(1, x), SecondWritten(x, y);
    assert z.sender.expAckno == 2 && z.sender.lastAckno == 0 && z.sender.wnd == 10 && !z.sender.finAcked;
    assert u.input.history == [x, y] && Stream.Buffer(u.input) == [y] by {
      assert [x] + [y] == [x, y] && [x, y][1..] == [y];
    }
    PushSecond(u, y);
    hide AfterSegment, Told;
    assert z.segments + Elements([]) == z.segments;
    assert z.segments + Elements([Second(y)]) == {SynWith(1, x), Second(y)};
  }

  lemma OvertakingRun(x: byte, y: byte)
    ensures var w := Exec(Begun(1, x), Overtaking(x, y));
            && AllAllowed(Begun(1, x), Overtaking(x, y), true, false)
            && w.receiver == MisledOpen(x, y) && w.sender.input.history == [x, y] && Second(y) in w.segments
  {
    var z, a, b := Begun(1, x), SynWith(1, x), Second(y);
    AllowedFour(z, AppWrite([y]), SenderPush, DeliverSegment(b), DeliverSegment(a), true, false);
    SendsSecond(x, y);
    ReceiverMisled(x, y);
    var z2 := SecondSent(x, y);
    assert z2.receiver == Rx.NewReceiver(10) && a in z2.segments && b in z2.segments;
    hide Begun, SecondSent, SecondWritten, Rx.Receive, Rx.NewReceiver, Misled, MisledOpen;
    assert Next(z2, DeliverSegment(b)) == z2.(receiver := Misled(y));
    assert Next(z2.(receiver := Misled(y)), DeliverSegment(a)) == z2.(receiver := MisledOpen(x, y));
  }

  lemma LastByte(w: System, x: byte, y: byte)
    requires w.receiver == MisledOpen(x, y) && w.sender.input.history == [x, y] && Second(y) in w.segments
    ensures Allowed(w, DeliverSegment(Second(y)), true, false) && !Safe(Next(w, DeliverSegment(Second(y))))
  {
    ByteTwice(x, y);
    hide Rx.Receive, MisledOpen;
    var z := Next(w, DeliverSegment(Second(y)));
    assert |z.receiver.reassembly.output.history| == 3 && |z.sender.input.history| == 2;
  }

  lemma AllowedOne(y: System, a: Action, acks: bool, data: bool)
    requires Allowed(y, a, acks, data)
    ensures AllAllowed(y, [a], acks, data) && Exec(y, [a]) == Next(y, a)
  {
    hide Next, Allowed;
    assert [a][1..] == [];
    AllowedFirst(y, [a], acks, data);
    assert AllAllowed(Next(y, a), [], acks, data) && Exec(Next(y, a), []) == Next(y, a);
  }

  /** Without the second assumption: the segment with the second byte arrives before SYN, then SYN with the first
      byte, then the second byte again, and it is in the output twice. */
  lemma OvertakingIsUnsafe(x: byte, y: byte)
    ensures var start := NewSystem(10, 10, 1, 1000);
            var actions := Beginning(x) + Overtaking(x, y) + [DeliverSegment(Second(y))];
            AllAllowed(start, actions, true, false) && !Safe(Exec(start, actions))
  {
    var start := NewSystem(10, 10, 1, 1000);
    BeginningRun(1, x);
    Weaken(start, Beginning(x));
    OvertakingRun(x, y);
    hide NewSystem, Begun, Beginning, Overtaking, MisledOpen, Next, AllAllowed, Allowed, Safe, Exec;
    AllowedAppend(start, Beginning(x), Overtaking(x, y), true, false);
    var w := Exec(start, Beginning(x) + Overtaking(x, y));
    LastByte(w, x, y);
    AllowedOne(w, DeliverSegment(Second(y)), true, false);
    AllowedAppend(start, Beginning(x) + Overtaking(x, y), [DeliverSegment(Second(y))], true, false);
  }
}
