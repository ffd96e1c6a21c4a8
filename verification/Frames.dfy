/** IPv4 datagrams, ARP messages and Ethernet frames as values. */
module Frames {
  import opened Numbers

  type EthernetAddress = x: int | 0 <= x < 0x1_0000_0000_0000

  const ETHERNET_BROADCAST: EthernetAddress := 0xffff_ffff_ffff
  const ETHERNET_ZERO: EthernetAddress := 0
  const TTL_DEFAULT: u8 := 128
  const PROTO_TCP: u8 := 6
  const OPCODE_REQUEST: u16 := 1
  const OPCODE_REPLY: u16 := 2

  datatype IPv4Header = IPv4Header(ver: u8, hlen: u8, tos: u8, len: u16, id: u16, df: bool, mf: bool, offset: u16,
                                   ttl: u8, proto: u8, cksum: u16, src: u32, dst: u32)

  datatype Datagram = Datagram(header: IPv4Header, payload: seq<seq<byte>>)

  datatype ArpMessage = ArpMessage(opcode: u16, senderEth: EthernetAddress, senderIp: u32,
                                   targetEth: EthernetAddress, targetIp: u32)

  /** The payload of a frame, by its Ethernet type, as a parser leaves it: an interface takes the fields as they are
      then, whether or not the parser has flagged an error. */
  datatype Body = IPv4Body(dgram: Datagram) | ArpBody(msg: ArpMessage) | OtherBody

  datatype EthernetFrame = EthernetFrame(dst: EthernetAddress, src: EthernetAddress, body: Body)
}
