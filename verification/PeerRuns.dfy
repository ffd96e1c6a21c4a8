/** A concrete run in which an inactive peer becomes active again. */
module PeerRuns {
  import opened Numbers
  import opened Messages
  import opened Wrapping
  import opened PeerModel
  import opened PeerTheory
  import opened ConnectionRuns
  import Stream = StreamModel
  import Reassembling = ReassemblerModel
  import Rx = ReceiverModel
  import Tx = SenderModel

  /** The other end opens and ends its stream in one segment, and acknowledges SYN. */
  function OpenAndEnd(isn: u32, other: u32): TCPMessage {
    TCPMessage(SenderMessage(other, true, [], true, false), Reply(1, isn))
  }

  function Ended(other: u32): Rx.Receiver {
    Rx.Receiver(Reassembling.Reassembly(Stream.Close(Stream.NewStream(10)), [], 0, 0, true), other, 0, true, true, false)
  }

  lemma StreamEnds(other: u32)
    ensures Rx.Receive(Rx.NewReceiver(10), SenderMessage(other, true, [], true, false)) == Ended(other)
  {
    assert Stream.Push(Stream.NewStream(10), []) == Stream.NewStream(10);
  }

  /** The peer after its SYN has been acknowledged and the inbound stream has ended. */
  function Opened(isn: u32, other: u32, time: nat): Peer {
    Peer(1000, SenderAt([], isn, 1, 1, false, []), Ended(other), false, true, time, 0)
  }

  lemma PeerOpens(isn: u32, other: u32)
    ensures var p := Act(NewPeer(10, 10, isn, 1000), PushOut).peer;
            Act(p, Incoming(OpenAndEnd(isn, other))).peer == Opened(isn, other, 0)
  {
    SenderOpens(isn);
    StreamEnds(other);
    var p := Act(NewPeer(10, 10, isn, 1000), PushOut).peer;
    var m := OpenAndEnd(isn, other);
    assert Active(p);
    Tx.FillDone(SenderAt([], isn, 1, 1, false, []), 10);
    hide Wrap, Unwrap, Rx.Receive, Rx.Send, Tx.Receive, Tx.Fill, Rx.NewReceiver, Active;
    assert Digest(p, m).sender == SenderAt([], isn, 1, 1, false, []) && Digest(p, m).receiver == Ended(other);
    assert Tx.Push(Digest(p, m).sender) == Tx.Sent(Digest(p, m).sender, []);
  }

  function Revival(isn: u32, other: u32): seq<PeerAction> {
    [PushOut, Incoming(OpenAndEnd(isn, other)), Elapse(10000), CloseOut]
  }

  lemma ActFour(p: Peer, a: PeerAction, b: PeerAction, c: PeerAction, d: PeerAction)
    ensures ActAll(p, [a, b, c, d]).peer == Act(Act(Act(Act(p, a).peer, b).peer, c).peer, d).peer
  {
    hide Act;
    var p2 := Act(Act(p, a).peer, b).peer;
    assert [a, b, c, d][1..] == [b, c, d] && [b, c, d][1..] == [c, d] && [c, d][1..] == [d];
    ActOne(Act(p2, c).peer, d);
    assert ActAll(p2, [c, d]).peer == ActAll(Act(p2, c).peer, [d]).peer;
  }

  /** A push revives an inactive peer. It has sent SYN; the other end acknowledges that and ends its own stream; the
      time for lingering passes; the application closes its stream. Then the peer is inactive, without having sent
      FIN, and a push of the application makes it active again. */
  lemma PushRevives(isn: u32, other: u32)
    ensures var p := ActAll(NewPeer(10, 10, isn, 1000), Revival(isn, other)).peer;
            && !Active(p) && !AnyErrors(p) && !p.sender.finSent
            && Active(Act(p, PushOut).peer)
  {
    var start := NewPeer(10, 10, isn, 1000);
    ActFour(start, PushOut, Incoming(OpenAndEnd(isn, other)), Elapse(10000), CloseOut);
    ActAllOk(start, Revival(isn, other));
    PeerOpens(isn, other);
    var p := ActAll(start, Revival(isn, other)).peer;
    Closes(isn, other);
    assert p == Finished(isn, other);
    hide ActAll, NewPeer, Finished;
    InactiveAct(p, PushOut);
    hide Act;
  }

  /** Time passes and the application closes its stream. */
  function Finished(isn: u32, other: u32): Peer {
    var p := Opened(isn, other, 10000);
    p.(sender := p.sender.(input := Stream.Close(p.sender.input)))
  }

  lemma Closes(isn: u32, other: u32)
    ensures Act(Act(Opened(isn, other, 0), Elapse(10000)).peer, CloseOut).peer == Finished(isn, other)
    ensures var p := Finished(isn, other);
            !Active(p) && !AnyErrors(p) && !p.sender.finSent
  {
    assert Act(Opened(isn, other, 0), Elapse(10000)).peer == Opened(isn, other, 10000);
  }
}
