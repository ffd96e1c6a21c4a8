/** What the two halves of a connection say to each other. */
module Messages {
  import opened Numbers

  datatype SenderMessage = SenderMessage(seqno: u32, syn: bool, payload: seq<byte>, fin: bool, rst: bool)

  /** How many sequence numbers the segment uses. */
  function Length(m: SenderMessage): nat {
    (if m.syn then 1 else 0) + |m.payload| + (if m.fin then 1 else 0)
  }

  datatype ReceiverMessage = ReceiverMessage(ackno: Option<u32>, window: u16, rst: bool)

  datatype TCPMessage = TCPMessage(sender: SenderMessage, receiver: ReceiverMessage)
}
