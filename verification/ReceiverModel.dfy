/** What the TCP receiver computes: stream indices from sequence numbers, and its acknowledgment. */
module ReceiverModel {
  import opened Numbers
  import opened Messages
  import opened Wrapping
  import opened ReassemblerModel
  import Out = StreamModel

  datatype Receiver = Receiver(reassembly: Reassembly, isn: u32, maxAbsSeqno: u64,
                               isInit: bool, hasFin: bool, hasRst: bool)

  function NewReceiver(capacity: nat): Receiver {
    Receiver(NewReassembly(capacity), 0, 0, false, false, false)
  }

  function Receive(r: Receiver, m: SenderMessage): Receiver {
    if m.rst then
      r.(hasRst := true, reassembly := ReassemblerModel.SetError(r.reassembly))
    else if m.syn then
      Receiver(Insert(r.reassembly, 0, m.payload, m.fin), m.seqno, 0, true, m.fin, m.rst)
    else
      var absSeqno := Unwrap(m.seqno, r.isn, r.maxAbsSeqno);
      r.(maxAbsSeqno := absSeqno, hasFin := r.hasFin || m.fin,
         reassembly := Insert(r.reassembly, U64(absSeqno - 1), m.payload, m.fin))
  }

  /** The absolute acknowledgment number. FIN is counted whenever nothing is pending. */
  function AbsAckno(r: Receiver): nat {
    r.reassembly.next + 1 + (if Pending(r.reassembly) == 0 && r.hasFin then 1 else 0)
  }

  function Window(r: Receiver): u16 {
    Min(Out.Available(r.reassembly.output), 0xffff)
  }

  function Send(r: Receiver): ReceiverMessage {
    ReceiverMessage(if r.isInit then Some(Wrap(AbsAckno(r), r.isn)) else None,
                    Window(r), r.hasRst || r.reassembly.output.error)
  }
}
