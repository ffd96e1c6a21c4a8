/** Concrete runs of the connection in which the program departs from what it promises. */
module ConnectionRuns {
  import opened Numbers
  import opened Messages
  import opened Wrapping
  import opened ReassemblerModel
  import opened ReassemblerTheory
  import opened SenderModel
  import opened SenderTheory
  import opened Connection
  import opened ConnectionTheory
  import Stream = StreamModel
  import Rx = ReceiverModel
  import Tx = SenderTheory

  // ----- FIN counted across a gap -----

  function Syn(isn: u32): SenderMessage {
    SenderMessage(isn, true, [], false, false)
  }

  function ByteSegment(isn: u32, x: byte): SenderMessage {
    SenderMessage(Wrap(1, isn), false, [x], false, false)
  }

  /** FIN for a stream of one byte. */
  function Fin(isn: u32): SenderMessage {
    SenderMessage(Wrap(2, isn), false, [], true, false)
  }

  function Reply(ackno: nat, isn: u32): ReceiverMessage {
    ReceiverMessage(Some(Wrap(ackno, isn)), 10, false)
  }

  /** A sender that has put everything written so far into segments. */
  function SenderAt(history: seq<byte>, isn: u32, ackno: nat, unsent: nat, closed: bool, ost: seq<Outstanding>): Sender {
    Sender(Stream.StreamState(10, history, |history|, |history|, closed, false), isn, 1000, 1000, ackno, unsent,
           closed, false, 0, false, Timer(ost != [], false, 1000, 0), 10, ost)
  }

  /** SYN is sent, and acknowledged. */
  lemma SenderOpens(isn: u32)
    ensures var p := SenderModel.Push(NewSender(10, isn, 1000));
            && p.messages == [Syn(isn)]
            && Receive(p.sender, Reply(1, isn)) == SenderAt([], isn, 1, 1, false, [])
  {
    var s := NewSender(10, isn, 1000);
    FillOpening(s);
    FillStep(s, 1);
    var t := AfterSegment(s, 1);
    assert Segment(s, 1) == Syn(isn);
    assert SenderModel.Push(s).sender == t;
    UnwrapWrap(1, isn, 0);
    hide Wrap, Unwrap;
    var o := Outstanding(0, Syn(isn));
    assert t.ost == [o] && Acknowledge([o], 1) == Acknowledge([o][1..], 1) == [];
  }

  /** A byte is written and sent. */
  lemma SenderSendsByte(isn: u32, x: byte)
    ensures var s := Tx.Step(SenderAt([], isn, 1, 1, false, []), Write([x])).sender;
            SenderModel.Push(s) == Sent(SenderAt([x], isn, 1, 2, false, [Outstanding(1, ByteSegment(isn, x))]),
                                        [ByteSegment(isn, x)])
  {
    hide Wrap, Unwrap;
    var s := Tx.Step(SenderAt([], isn, 1, 1, false, []), Write([x])).sender;
    assert s.input.history == [x] && Segment(s, 10) == ByteSegment(isn, x);
    FillStep(s, 10);
    FillDone(AfterSegment(s, 10), 9);
  }

  /** The input is closed and FIN is sent. */
  lemma SenderSendsFin(isn: u32, x: byte)
    ensures var o, fin := Outstanding(1, ByteSegment(isn, x)), Fin(isn);
            var s := Tx.Step(SenderAt([x], isn, 1, 2, false, [o]), CloseInput).sender;
            SenderModel.Push(s) == Sent(SenderAt([x], isn, 1, 3, true, [o, Outstanding(2, fin)]), [fin])
  {
    hide Wrap, Unwrap;
    var o := Outstanding(1, ByteSegment(isn, x));
    var s := Tx.Step(SenderAt([x], isn, 1, 2, false, [o]), CloseInput).sender;
    assert Segment(s, 9) == Fin(isn);
    FillStep(s, 9);
    FillDone(AfterSegment(s, 9), 8);
    assert [o][1..] == [] && MapInsert([o], Outstanding(2, Fin(isn))) == [o] + MapInsert([], Outstanding(2, Fin(isn)));
  }

  /** An acknowledgment of number 1 makes it forget the byte. */
  lemma SenderForgetsByte(isn: u32, x: byte)
    ensures var o, o' := Outstanding(1, ByteSegment(isn, x)), Outstanding(2, Fin(isn));
            Receive(SenderAt([x], isn, 1, 3, true, [o, o']), Reply(2, isn)) == SenderAt([x], isn, 2, 3, true, [o'])
  {
    UnwrapWrap(2, isn, 1);
    hide Wrap, Unwrap;
    var o, o' := Outstanding(1, ByteSegment(isn, x)), Outstanding(2, Fin(isn));
    assert [o, o'][1..] == [o'];
    assert Acknowledge([o, o'], 2) == Acknowledge([o'], 2) == [o'];
  }

  /** A receiver that has seen SYN, and one that has also seen FIN, but not the byte. */
  function Opened(isn: u32): Rx.Receiver {
    Rx.Receiver(NewReassembly(10), isn, 0, true, false, false)
  }

  function Waiting(isn: u32): Rx.Receiver {
    Rx.Receiver(Reassembly(Stream.NewStream(10), [SegValue(1, 1, [], 0)], 0, 1, true), isn, 2, true, true, false)
  }

  lemma ReceiverOpens(isn: u32)
    ensures Rx.Receive(Rx.NewReceiver(10), Syn(isn)) == Opened(isn)
    ensures Rx.Send(Opened(isn)) == Reply(1, isn) && !CountsFinEarly(Opened(isn))
  {
    assert Stream.Push(Stream.NewStream(10), []).history == [];
  }

  lemma ReceiverWaits(isn: u32)
    ensures Rx.Receive(Opened(isn), Fin(isn)) == Waiting(isn)
    ensures Rx.Send(Waiting(isn)) == Reply(2, isn) && CountsFinEarly(Waiting(isn))
  {
    UnwrapWrap(2, isn, 0);
    hide Wrap, Unwrap;
    var g := SegValue(1, 1, [], 0);
    assert Emplace([], g) == [g];
    assert Covered([g]) == Interval(1, 1) + Covered([g][1..]) == {};
    assert Insert(NewReassembly(10), 1, [], true) == Waiting(isn).reassembly;
  }

  function Opening(isn: u32): seq<Action> {
    [SenderPush, DeliverSegment(Syn(isn)), ReceiverReply, DeliverAck(Reply(1, isn))]
  }

  function Sending(x: byte): seq<Action> {
    [AppWrite([x]), SenderPush, AppClose, SenderPush]
  }

  function Losing(isn: u32): seq<Action> {
    [DeliverSegment(Fin(isn)), ReceiverReply, DeliverAck(Reply(2, isn))]
  }

  lemma ExecFour(y: System, a: Action, b: Action, c: Action, d: Action)
    ensures var y1 := Next(y, a);
            var y2 := Next(y1, b);
            var y3 := Next(y2, c);
            && Exec(y, [a, b, c, d]) == Next(y3, d)
            && (AllEnabled(y, [a, b, c, d]) <==> Enabled(y, a) && Enabled(y1, b) && Enabled(y2, c) && Enabled(y3, d))
  {
    hide Next, Enabled;
    ExecFirst(y, [a, b, c, d]);
    ExecThree(Next(y, a), b, c, d);
    assert [a, b, c, d][1..] == [b, c, d];
    hide Exec, AllEnabled;
  }

  lemma ExecThree(y: System, a: Action, b: Action, c: Action)
    ensures var y1 := Next(y, a);
            var y2 := Next(y1, b);
            && Exec(y, [a, b, c]) == Next(y2, c)
            && (AllEnabled(y, [a, b, c]) <==> Enabled(y, a) && Enabled(y1, b) && Enabled(y2, c))
  {
    hide Next, Enabled;
    assert [a, b, c][1..] == [b, c] && [b, c][1..] == [c];
    ExecFirst(y, [a, b, c]);
    ExecFirst(Next(y, a), [b, c]);
    ExecOne(Next(Next(y, a), b), c);
    hide Exec, AllEnabled;
  }

  lemma ExecFirst(y: System, actions: seq<Action>)
    requires actions != []
    ensures Exec(y, actions) == Exec(Next(y, actions[0]), actions[1..])
    ensures AllEnabled(y, actions) <==> Enabled(y, actions[0]) && AllEnabled(Next(y, actions[0]), actions[1..])
  {
    hide Next, Enabled;
  }

  lemma ExecOne(y: System, a: Action)
    ensures Exec(y, [a]) == Next(y, a) && (AllEnabled(y, [a]) <==> Enabled(y, a))
  {
    hide Next, Enabled;
    ExecFirst(y, [a]);
    assert [a][1..] == [];
    assert AllEnabled(Next(y, a), []) && Exec(Next(y, a), []) == Next(y, a);
  }

  lemma {:induction false} ExecAppend(y: System, a: seq<Action>, b: seq<Action>)
    ensures Exec(y, a + b) == Exec(Exec(y, a), b)
    ensures AllEnabled(y, a + b) <==> AllEnabled(y, a) && AllEnabled(Exec(y, a), b)
    decreases |a|
  {
    hide Next, Enabled;
    if a == [] {
      assert a + b == b;
    } else {
      assert (a + b)[1..] == a[1..] + b;
      ExecAppend(Next(y, a[0]), a[1..], b);
    }
  }

  /** After SYN has been sent, and after it has been delivered and acknowledged. */
  function SynSent(isn: u32): System {
    System(SenderModel.Push(NewSender(10, isn, 1000)).sender, Rx.NewReceiver(10), {Syn(isn)}, {}, true, false)
  }

  function Open(isn: u32): System {
    System(SenderAt([], isn, 1, 1, false, []), Opened(isn), {Syn(isn)}, {Reply(1, isn)}, true, false)
  }

  lemma SendSyn(isn: u32)
    ensures Next(NewSystem(10, 10, isn, 1000), SenderPush) == SynSent(isn)
  {
    SenderOpens(isn);
    hide Wrap, SenderModel.Push, NewSender, Rx.NewReceiver;
    assert {} + Elements([Syn(isn)]) == {Syn(isn)};
  }

  lemma AnswerSyn(isn: u32)
    ensures var y := SynSent(isn).(receiver := Opened(isn));
            var z := y.(acks := {Reply(1, isn)});
            && Next(SynSent(isn), DeliverSegment(Syn(isn))) == y && Next(y, ReceiverReply) == z
            && Next(z, DeliverAck(Reply(1, isn))) == Open(isn)
  {
    SenderOpens(isn);
    ReceiverOpens(isn);
    hide Wrap, SenderModel.Push, Receive, Rx.Receive, Rx.Send, CountsFinEarly, NewSender, Rx.NewReceiver;
    var z := SynSent(isn).(receiver := Opened(isn), acks := {Reply(1, isn)});
    assert {} + {Reply(1, isn)} == {Reply(1, isn)};
    assert z.segments + Elements([]) == z.segments;
  }

  lemma OpeningRun(isn: u32)
    ensures AllEnabled(NewSystem(10, 10, isn, 1000), Opening(isn))
    ensures Exec(NewSystem(10, 10, isn, 1000), Opening(isn)) == Open(isn)
  {
    SendSyn(isn);
    AnswerSyn(isn);
    hide Wrap, Next, NewSystem, Exec, AllEnabled;
    ExecFour(NewSystem(10, 10, isn, 1000), SenderPush, DeliverSegment(Syn(isn)), ReceiverReply,
             DeliverAck(Reply(1, isn)));
  }

  lemma SendingRun(isn: u32, x: byte)
    ensures var y := Open(isn);
            var ost := [Outstanding(1, ByteSegment(isn, x)), Outstanding(2, Fin(isn))];
            AllEnabled(y, Sending(x))
            && Exec(y, Sending(x)) == y.(sender := SenderAt([x], isn, 1, 3, true, ost),
                                         segments := {Syn(isn), ByteSegment(isn, x), Fin(isn)})
  {
    var y := Open(isn);
    SenderSendsByte(isn, x);
    SenderSendsFin(isn, x);
    hide Wrap, SenderModel.Push;
    ExecFour(y, AppWrite([x]), SenderPush, AppClose, SenderPush);
    var y1 := Next(y, AppWrite([x]));
    assert y1.segments == {Syn(isn)};
    var y2 := Next(y1, SenderPush);
    assert y2.segments == {Syn(isn), ByteSegment(isn, x)};
    var y3 := Next(y2, AppClose);
    assert y3.segments == {Syn(isn), ByteSegment(isn, x)};
    assert Next(y3, SenderPush).segments == {Syn(isn), ByteSegment(isn, x), Fin(isn)};
  }

  lemma LosingRun(isn: u32, x: byte)
    ensures var ost := [Outstanding(1, ByteSegment(isn, x)), Outstanding(2, Fin(isn))];
            var y := System(SenderAt([x], isn, 1, 3, true, ost), Opened(isn), {Syn(isn), ByteSegment(isn, x), Fin(isn)},
                            {Reply(1, isn)}, true, false);
            AllEnabled(y, Losing(isn))
            && Exec(y, Losing(isn)) == y.(sender := SenderAt([x], isn, 2, 3, true, [Outstanding(2, Fin(isn))]),
                                          receiver := Waiting(isn), acks := {Reply(1, isn), Reply(2, isn)},
                                          honest := false)
  {
    var ost := [Outstanding(1, ByteSegment(isn, x)), Outstanding(2, Fin(isn))];
    var y := System(SenderAt([x], isn, 1, 3, true, ost), Opened(isn), {Syn(isn), ByteSegment(isn, x), Fin(isn)},
                    {Reply(1, isn)}, true, false);
    SenderForgetsByte(isn, x);
    ReceiverWaits(isn);
    hide Wrap, Receive, Rx.Receive, Rx.Send, CountsFinEarly;
    ExecThree(y, DeliverSegment(Fin(isn)), ReceiverReply, DeliverAck(Reply(2, isn)));
    var y2 := Next(Next(y, DeliverSegment(Fin(isn))), ReceiverReply);
    assert y2.acks == {Reply(1, isn), Reply(2, isn)};
    assert Next(y2, DeliverAck(Reply(2, isn))).segments == y.segments;
  }

  /** FIN counted across a gap loses a byte for good. SYN is sent and acknowledged; the byte x and FIN are sent; the
      byte is lost and FIN arrives; the receiver's reply acknowledges number 2, and the sender no longer keeps the
      segment with the byte, although the receiver is still at position 0. */
  lemma FinLosesByte(isn: u32, x: byte)
    ensures var y := NewSystem(10, 10, isn, 1000);
            var actions := Opening(isn) + Sending(x) + Losing(isn);
            var z := Exec(y, actions);
            && AllEnabled(y, actions)
            && z.sender.input.history == [x] && z.sender.ost == [Outstanding(2, Fin(isn))]
            && z.receiver.reassembly.next == 0 && z.receiver.reassembly.output.history == [] && !AcksHold(z)
  {
    var y := NewSystem(10, 10, isn, 1000);
    OpeningRun(isn);
    SendingRun(isn, x);
    LosingRun(isn, x);
    ExecAppend(y, Opening(isn), Sending(x));
    ExecAppend(y, Opening(isn) + Sending(x), Losing(isn));
    hide Exec, AllEnabled, NewSystem, Opening, Sending, Losing;
  }
}
