/** The TCP peer object. Messages handed to `transmit` are returned in order. */
module Peers {
  import opened Numbers
  import opened Messages
  import opened ByteStreams
  import opened Reassemblers
  import opened Receivers
  import opened Senders
  import opened PeerModel
  import Model = PeerModel
  import Stream = StreamModel
  import Rx = ReceiverModel
  import Tx = SenderModel

  class TCPPeer {
    const rtTimeout: u16
    const sender: TCPSender
    const receiver: TCPReceiver
    var needSend: bool
    var linger: bool
    var time: nat
    var lastReceipt: nat

    ghost predicate Valid()
      reads this, sender, sender.input, sender.input.content, sender.timer
      reads receiver, receiver.reassembler, receiver.reassembler.output, receiver.reassembler.output.content
    {
      && sender.input != receiver.reassembler.output
      && sender.input.content != receiver.reassembler.output.content
      && sender.Valid() && receiver.Valid()
    }

    ghost function View(): Peer
      requires Valid()
      reads this, sender, sender.input, sender.input.content, sender.timer
      reads receiver, receiver.reassembler, receiver.reassembler.output, receiver.reassembler.output.content
    {
      Peer(rtTimeout, sender.View(), receiver.View(), needSend, linger, time, lastReceipt)
    }

    constructor (sendCapacity: nat, receiveCapacity: nat, isn: u32, rtTimeout: u16)
      requires sendCapacity < TWO64 - 1 && receiveCapacity < TWO64 - 1
      ensures Valid() && View() == NewPeer(sendCapacity, receiveCapacity, isn, rtTimeout)
    {
      hide Tx.NewSender, Rx.NewReceiver;
      var s := MakeSender(sendCapacity, isn, rtTimeout);
      var r := MakeReceiver(receiveCapacity);
      this.rtTimeout, sender, receiver := rtTimeout, s, r;
      needSend, linger, time, lastReceipt := false, true, 0, 0;
    }

    static method MakeSender(capacity: nat, isn: u32, rtTimeout: u16) returns (s: TCPSender)
      requires capacity < TWO64 - 1
      ensures fresh(s) && fresh(s.input) && fresh(s.input.content) && fresh(s.timer)
      ensures s.Valid() && s.View() == Tx.NewSender(capacity, isn, rtTimeout)
    {
      hide ByteStream.Valid, ByteStream.View;
      var input := new ByteStream(capacity);
      s := new TCPSender(input, isn, rtTimeout);
    }

    static method MakeReceiver(capacity: nat) returns (r: TCPReceiver)
      requires capacity < TWO64 - 1
      ensures fresh(r) && fresh(r.reassembler) && fresh(r.reassembler.output) && fresh(r.reassembler.output.content)
      ensures r.Valid() && r.View() == Rx.NewReceiver(capacity)
    {
      hide ByteStream.Valid, ByteStream.View;
      var output := new ByteStream(capacity);
      var reassembler := new Reassembler(output);
      r := new TCPReceiver(reassembler);
    }

    predicate IsActive()
      requires Valid()
      reads this, sender, sender.input, sender.input.content, sender.timer
      reads receiver, receiver.reassembler, receiver.reassembler.output, receiver.reassembler.output.content
      ensures IsActive() == Active(View())
    {
      var anyErrors := receiver.reassembler.output.error || sender.input.error;
      var senderActive := sender.SequenceNumbersInFlight() != 0 || !sender.input.IsFinished();
      var receiverActive := !receiver.reassembler.output.isClosed;
      var lingering := linger && time < lastReceipt + 10 * rtTimeout;
      !anyErrors && (senderActive || receiverActive || lingering)
    }

    method Push() returns (sent: seq<TCPMessage>)
      requires Valid()
      modifies this, sender, sender.input, sender.input.content, sender.timer
      ensures Valid() && Sent(View(), sent) == Model.Push(old(View()))
    {
      hide Tx.Push;
      var segments := sender.Push();
      sent := SendAll(segments);
    }

    method Tick(ms: u64) returns (sent: seq<TCPMessage>)
      requires Valid()
      modifies this, sender, sender.input, sender.input.content, sender.timer
      ensures Valid() && Sent(View(), sent) == Model.Tick(old(View()), ms)
    {
      hide Tx.Tick;
      time := time + ms;
      var segments := sender.Tick(ms);
      sent := SendAll(segments);
    }

    /** `send` for each segment in turn. */
    method SendAll(segments: seq<SenderMessage>) returns (sent: seq<TCPMessage>)
      requires Valid()
      modifies this`needSend
      ensures Valid() && Sent(View(), sent) == Attach(old(View()), segments)
    {
      hide Rx.Send;
      sent := [];
      ghost var answer := Rx.Send(receiver.View());
      for i := 0 to |segments|
        invariant Valid() && receiver.View() == old(receiver.View())
        invariant needSend == (if i == 0 then old(needSend) else false)
        invariant |sent| == i && forall j :: 0 <= j < i ==> sent[j] == TCPMessage(segments[j], answer)
      {
        var receiverMessage := receiver.Send();
        sent := sent + [TCPMessage(segments[i], receiverMessage)];
        needSend := false;
      }
    }

    method Receive(msg: TCPMessage) returns (sent: seq<TCPMessage>)
      requires Valid()
      modifies this, sender, sender.input, sender.input.content, sender.timer
      modifies receiver, receiver.reassembler, receiver.reassembler.output, receiver.reassembler.output.content
      ensures Valid() && Sent(View(), sent) == Model.Receive(old(View()), msg)
    {
      hide Model.Push, Rx.Receive, Tx.Receive, Rx.Send, ByteStream.Valid, ByteStream.View;
      sent := [];
      if !IsActive() {
        return;
      }
      TakeIn(msg);
      sent := Push();
      if needSend {
        var empty := sender.MakeEmptyMessage();
        var reply := SendAll([empty]);
        sent := sent + reply;
      }
    }

    /** Does the incoming segment call for a reply? */
    method Owes(msg: SenderMessage) returns (owed: bool)
      requires Valid()
      ensures owed == CallsForReply(View(), msg)
    {
      hide Rx.Send, U32, Active, ByteStream.Valid, ByteStream.View;
      var ours := receiver.Send();
      owed := Length(msg) > 0;
      owed := owed || (ours.ackno.Some? && U32(msg.seqno + 1) == ours.ackno.value);
    }

    method Note(msg: SenderMessage)
      requires Valid()
      modifies this
      ensures Valid() && View() == NoteReceipt(old(View()), msg)
    {
      hide Rx.Send, CallsForReply, Active, ByteStream.Valid;
      var owed := Owes(msg);
      var finished := sender.input.IsFinished();
      lastReceipt, needSend := time, needSend || owed;
      if receiver.reassembler.output.isClosed && !finished {
        linger := false;
      }
    }

    /** Record the receipt and hand the two halves of the message on. */
    method TakeIn(msg: TCPMessage)
      requires Valid()
      modifies this, sender, sender.input, sender.input.content, sender.timer
      modifies receiver, receiver.reassembler, receiver.reassembler.output, receiver.reassembler.output.content
      ensures Valid() && View() == Digest(old(View()), msg)
    {
      hide Rx.Receive, Tx.Receive, Rx.Send, CallsForReply, ByteStream.Valid, ByteStream.View;
      Note(msg.sender);
      receiver.Receive(msg.sender);
      assert sender.Valid() && sender.View() == old(sender.View());
      sender.Receive(msg.receiver);
      assert receiver.Valid() && receiver.View() == Rx.Receive(old(receiver.View()), msg.sender);
    }
  }
}
