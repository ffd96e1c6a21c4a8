/** What a network interface computes: ARP cache, pending requests, per-hop queue (RFC 826). */
module InterfaceModel {
  import opened Numbers
  import opened Frames

  const RTABLE_ENTRY_EXPIRE_TIME: nat := 30000
  const PENDING_ARP_REQ_EXPIRE_TIME: nat := 5000

  datatype RtEntry = RtEntry(ip: u32, eth: EthernetAddress, age: nat)
  datatype Pending = Pending(ip: u32, age: nat)
  datatype Queued = Queued(dgram: Datagram, hop: u32)

  datatype Interface = Interface(eth: EthernetAddress, ip: u32, received: seq<Datagram>, queued: seq<Queued>,
                                 rtable: seq<RtEntry>, pending: seq<Pending>)

  /** A frame handed to the output port; a datagram's frame is marked with the next hop it was sent for. */
  datatype Transmission = ToHop(hop: u32, frame: EthernetFrame) | Control(frame: EthernetFrame)

  datatype Outcome = Outcome(iface: Interface, log: seq<Transmission>)

  function FramesOf(log: seq<Transmission>): seq<EthernetFrame> {
    seq(|log|, i requires 0 <= i < |log| => log[i].frame)
  }

  /** The first entry for ip. */
  function Lookup(rtable: seq<RtEntry>, ip: u32): Option<EthernetAddress> {
    if rtable == [] then None
    else if rtable[0].ip == ip then Some(rtable[0].eth)
    else Lookup(rtable[1..], ip)
  }

  predicate Requested(pending: seq<Pending>, ip: u32) {
    exists p :: p in pending && p.ip == ip
  }

  function PackDgram(i: Interface, dgram: Datagram, dst: EthernetAddress): EthernetFrame {
    EthernetFrame(dst, i.eth, IPv4Body(dgram))
  }

  function PackArp(i: Interface, msg: ArpMessage): EthernetFrame {
    EthernetFrame(if msg.targetEth == ETHERNET_ZERO then ETHERNET_BROADCAST else msg.targetEth, i.eth, ArpBody(msg))
  }

  function ArpRequest(i: Interface, ip: u32): ArpMessage {
    ArpMessage(OPCODE_REQUEST, i.eth, i.ip, ETHERNET_ZERO, ip)
  }

  function ArpReply(i: Interface, request: ArpMessage): ArpMessage {
    ArpMessage(OPCODE_REPLY, i.eth, i.ip, request.senderEth, request.senderIp)
  }

  function SendDatagram(i: Interface, dgram: Datagram, hop: u32): Outcome {
    match Lookup(i.rtable, hop)
    case Some(eth) => Outcome(i, [ToHop(hop, PackDgram(i, dgram, eth))])
    case None =>
      var i1 := i.(queued := i.queued + [Queued(dgram, hop)]);
      if Requested(i.pending, hop) then Outcome(i1, [])
      else Outcome(i1.(pending := i.pending + [Pending(hop, 0)]), [Control(PackArp(i, ArpRequest(i, hop)))])
  }

  function WithoutIp(pending: seq<Pending>, ip: u32): seq<Pending> {
    if pending == [] then []
    else if pending[0].ip == ip then WithoutIp(pending[1..], ip)
    else [pending[0]] + WithoutIp(pending[1..], ip)
  }

  /** The queued datagrams for hop, in order, as frames to eth. */
  function Flushed(i: Interface, queued: seq<Queued>, hop: u32, eth: EthernetAddress): seq<Transmission> {
    if queued == [] then []
    else if queued[0].hop == hop then
      [ToHop(hop, PackDgram(i, queued[0].dgram, eth))] + Flushed(i, queued[1..], hop, eth)
    else Flushed(i, queued[1..], hop, eth)
  }

  function WithoutHop(queued: seq<Queued>, hop: u32): seq<Queued> {
    if queued == [] then []
    else if queued[0].hop == hop then WithoutHop(queued[1..], hop)
    else [queued[0]] + WithoutHop(queued[1..], hop)
  }

  function FlushPending(i: Interface, ip: u32, eth: EthernetAddress): Outcome {
    Outcome(i.(pending := WithoutIp(i.pending, ip), queued := WithoutHop(i.queued, ip)),
            Flushed(i, i.queued, ip, eth))
  }

  /** Is the frame for this interface? */
  predicate Accepted(i: Interface, frame: EthernetFrame) {
    frame.dst == ETHERNET_BROADCAST || frame.dst == i.eth
  }

  function RecvArp(i: Interface, msg: ArpMessage): Outcome {
    var flushed := FlushPending(i.(rtable := i.rtable + [RtEntry(msg.senderIp, msg.senderEth, 0)]),
                                msg.senderIp, msg.senderEth);
    if msg.opcode == OPCODE_REQUEST && msg.targetIp == i.ip then
      Outcome(flushed.iface, flushed.log + [Control(PackArp(i, ArpReply(i, msg)))])
    else flushed
  }

  function RecvFrame(i: Interface, frame: EthernetFrame): Outcome {
    if !Accepted(i, frame) then Outcome(i, [])
    else match frame.body
      case IPv4Body(dgram) => Outcome(i.(received := i.received + [dgram]), [])
      case ArpBody(msg) => RecvArp(i, msg)
      case OtherBody => Outcome(i, [])
  }

  function AgeRtable(rtable: seq<RtEntry>, ms: nat): seq<RtEntry> {
    if rtable == [] then []
    else if rtable[0].age + ms >= RTABLE_ENTRY_EXPIRE_TIME then AgeRtable(rtable[1..], ms)
    else [rtable[0].(age := rtable[0].age + ms)] + AgeRtable(rtable[1..], ms)
  }

  function AgePending(pending: seq<Pending>, ms: nat): seq<Pending> {
    if pending == [] then []
    else if pending[0].age + ms > PENDING_ARP_REQ_EXPIRE_TIME then AgePending(pending[1..], ms)
    else [pending[0].(age := pending[0].age + ms)] + AgePending(pending[1..], ms)
  }

  function Tick(i: Interface, ms: nat): Interface {
    i.(rtable := AgeRtable(i.rtable, ms), pending := AgePending(i.pending, ms))
  }
}
