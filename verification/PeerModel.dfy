/** What a TCP peer does: one sender and one receiver, the reply rule, and lingering. */
module PeerModel {
  import opened Numbers
  import opened Messages
  import Stream = StreamModel
  import Rx = ReceiverModel
  import Tx = SenderModel

  datatype Peer = Peer(rtTimeout: u16, sender: Tx.Sender, receiver: Rx.Receiver,
                       needSend: bool, linger: bool, time: nat, lastReceipt: nat)

  function NewPeer(sendCapacity: nat, receiveCapacity: nat, isn: u32, rtTimeout: u16): Peer {
    Peer(rtTimeout, Tx.NewSender(sendCapacity, isn, rtTimeout), Rx.NewReceiver(receiveCapacity), false, true, 0, 0)
  }

  predicate AnyErrors(p: Peer) {
    p.receiver.reassembly.output.error || p.sender.input.error
  }

  predicate Active(p: Peer) {
    var senderActive := Tx.InFlight(p.sender) != 0 || !Stream.Finished(p.sender.input);
    var receiverActive := !p.receiver.reassembly.output.closed;
    var lingering := p.linger && p.time < p.lastReceipt + 10 * p.rtTimeout;
    !AnyErrors(p) && (senderActive || receiverActive || lingering)
  }

  /** A peer and the messages it has transmitted. */
  datatype Sent = Sent(peer: Peer, messages: seq<TCPMessage>)

  /** Every outgoing segment travels with the receiver's present acknowledgment, which settles any reply owed. */
  function Attach(p: Peer, segments: seq<SenderMessage>): Sent {
    Sent(if segments == [] then p else p.(needSend := false),
         seq(|segments|, i requires 0 <= i < |segments| => TCPMessage(segments[i], Rx.Send(p.receiver))))
  }

  function Push(p: Peer): Sent {
    var s := Tx.Push(p.sender);
    Attach(p.(sender := s.sender), s.messages)
  }

  function Tick(p: Peer, ms: u64): Sent {
    var s := Tx.Tick(p.sender, ms);
    Attach(p.(sender := s.sender, time := p.time + ms), s.messages)
  }

  /** Does the incoming segment call for a reply? It does if it occupies a sequence number, or is a keep-alive
      just below the acknowledgment. */
  predicate CallsForReply(p: Peer, m: SenderMessage) {
    var ackno := Rx.Send(p.receiver).ackno;
    Length(m) > 0 || (ackno.Some? && U32(m.seqno + 1) == ackno.value)
  }

  /** Remember the time, whether a reply is owed, and whether there is any need to linger. */
  function NoteReceipt(p: Peer, m: SenderMessage): Peer {
    p.(lastReceipt := p.time,
       needSend := p.needSend || CallsForReply(p, m),
       linger := p.linger && !(p.receiver.reassembly.output.closed && !Stream.Finished(p.sender.input)))
  }

  /** The two halves of the message go to the receiver and the sender. */
  function Digest(p: Peer, m: TCPMessage): Peer {
    NoteReceipt(p, m.sender).(receiver := Rx.Receive(p.receiver, m.sender), sender := Tx.Receive(p.sender, m.receiver))
  }

  function Receive(p: Peer, m: TCPMessage): Sent {
    if !Active(p) then Sent(p, [])
    else
      var pushed := Push(Digest(p, m));
      if !pushed.peer.needSend then pushed
      else
        var reply := Attach(pushed.peer, [Tx.EmptyMessage(pushed.peer.sender)]);
        Sent(reply.peer, pushed.messages + reply.messages)
  }
}
