/** The TCP receiver object. */
module Receivers {
  import opened Numbers
  import opened Messages
  import opened Wrapping
  import opened ByteStreams
  import opened Reassemblers
  import opened ReassemblerModel
  import Model = ReceiverModel
  import Out = StreamModel

  class TCPReceiver {
    const reassembler: Reassembler
    var isn: u32
    var maxAbsSeqno: u64
    var isInit: bool
    var hasFin: bool
    var hasRst: bool

    ghost predicate Valid()
      reads this, reassembler, reassembler.output, reassembler.output.content
    {
      reassembler.Valid()
    }

    ghost function View(): Model.Receiver
      requires Valid()
      reads this, reassembler, reassembler.output, reassembler.output.content
    {
      Model.Receiver(reassembler.View(), isn, maxAbsSeqno, isInit, hasFin, hasRst)
    }

    constructor (reassembler: Reassembler)
      requires reassembler.Valid()
      ensures this.reassembler == reassembler && Valid()
      ensures View() == Model.Receiver(reassembler.View(), 0, 0, false, false, false)
    {
      this.reassembler := reassembler;
      isn, maxAbsSeqno, isInit, hasFin, hasRst := 0, 0, false, false, false;
    }

    method Receive(message: SenderMessage)
      requires Valid()
      modifies this, reassembler, reassembler.output, reassembler.output.content
      ensures Valid() && View() == Model.Receive(old(View()), message)
    {
      hide ReassemblerModel.Insert, Unwrap, U64, ByteStream.Valid, ByteStream.View;
      ghost var before := reassembler.View();
      if message.rst {
        hasRst := true;
        assert reassembler.View() == before;
        reassembler.SetError();
        return;
      }
      if message.syn {
        isInit, hasFin, hasRst := true, message.fin, message.rst;
        isn, maxAbsSeqno := message.seqno, 0;
        assert reassembler.View() == before;
        reassembler.Insert(0, message.payload, message.fin);
        return;
      }
      if message.fin {
        hasFin := true;
      }
      maxAbsSeqno := Unwrap(message.seqno, isn, maxAbsSeqno);
      assert reassembler.View() == before;
      reassembler.Insert(U64(maxAbsSeqno - 1), message.payload, message.fin);
    }

    method Send() returns (msg: ReceiverMessage)
      requires Valid()
      ensures msg == Model.Send(View())
    {
      var ackno := None;
      if isInit {
        var pending := reassembler.BytesPending();
        if pending > 0 {
          ackno := Some(Wrap(reassembler.next + 1, isn));
        } else {
          ackno := Some(Wrap(reassembler.next + 1 + (if hasFin then 1 else 0), isn));
        }
      }
      var available := reassembler.output.AvailableCapacity();
      var window := if available > 0xffff then 0xffff else available;
      msg := ReceiverMessage(ackno, window, hasRst || reassembler.output.error);
    }
  }
}
