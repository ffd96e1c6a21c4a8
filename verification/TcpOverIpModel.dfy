/** What the TCP-over-IPv4 adapter does: wrapping a message in a datagram, and filtering what comes in. */
module TcpOverIpModel {
  import opened Numbers
  import opened Bytes
  import opened Frames
  import opened Messages
  import opened Checksum
  import IP = IPv4Model
  import Seg = SegmentModel

  datatype Address = Address(ip: u32, port: u16)

  datatype Config = Config(source: Address, destination: Address, listening: bool)

  /** The header of the datagram that carries the message, before its checksum is set. */
  function PlainHeader(cfg: Config, m: TCPMessage): IPv4Header {
    IPv4Header(4, 5, 0, (5 * 4 + 20 + |m.sender.payload|) % 0x1_0000, 0, true, false, 0, TTL_DEFAULT, PROTO_TCP, 0,
               cfg.source.ip, cfg.destination.ip)
  }

  function WrapHeader(cfg: Config, m: TCPMessage): IPv4Header {
    PlainHeader(cfg, m).(cksum := IP.HeaderChecksum(PlainHeader(cfg, m)))
  }

  function WrapSegment(cfg: Config, m: TCPMessage): Seg.Segment {
    var plain := Seg.Segment(m, cfg.source.port, cfg.destination.port, 0);
    plain.(cksum := Seg.SegmentChecksum(plain, IP.PseudoSum(PlainHeader(cfg, m))))
  }

  /** The whole datagram on the wire. */
  function WrapBytes(cfg: Config, m: TCPMessage): seq<byte> {
    IP.HeaderBytes(WrapHeader(cfg, m)) + Seg.SegmentBytes(WrapSegment(cfg, m))
  }

  /** The configuration after a datagram, and the message in it if it is for this connection. */
  function Unwrap(cfg: Config, h: IPv4Header, bs: seq<byte>): (Config, Option<TCPMessage>) {
    if !cfg.listening && (h.dst != cfg.source.ip || h.src != cfg.destination.ip) then (cfg, None)
    else if h.proto != PROTO_TCP || !Seg.Acceptable(bs, IP.PseudoSum(h)) then (cfg, None)
    else
      var g := Seg.Decode(bs);
      if g.dstPort != cfg.source.port then (cfg, None)
      else if cfg.listening then
        if g.message.sender.syn && !g.message.sender.rst then
          (Config(Address(h.dst, cfg.source.port), Address(h.src, g.srcPort), false), Some(g.message))
        else (cfg, None)
      else if g.srcPort != cfg.destination.port then (cfg, None)
      else (cfg, Some(g.message))
  }

  /** What a peer does with the bytes of a datagram. */
  function ReceiveBytes(cfg: Config, bs: seq<byte>): (Config, Option<TCPMessage>) {
    if IP.Acceptable(bs) then Unwrap(cfg, IP.Decode(bs), IP.PayloadOf(bs)) else (cfg, None)
  }

  /** The other end of the same connection. */
  function Mirror(cfg: Config): Config {
    Config(cfg.destination, cfg.source, false)
  }

  predicate FitsDatagram(m: TCPMessage) {
    40 + |m.sender.payload| <= 0xffff
  }

  lemma HeaderChecksumIgnoresField(h: IPv4Header, c: u16)
    ensures IP.HeaderChecksum(h.(cksum := c)) == IP.HeaderChecksum(h)
    ensures IP.PseudoSum(h.(cksum := c)) == IP.PseudoSum(h)
  {
    assert h.(cksum := c).(cksum := 0) == h.(cksum := 0);
  }

  /** On the wire both checksums verify, and header and segment come back as they were written. */
  lemma WrapDecodes(cfg: Config, m: TCPMessage)
    requires FitsDatagram(m)
    ensures var bs, h, g := WrapBytes(cfg, m), WrapHeader(cfg, m), WrapSegment(cfg, m);
            && IP.Acceptable(bs) && IP.Decode(bs) == h && IP.PayloadOf(bs) == Seg.SegmentBytes(g)
            && Seg.Acceptable(Seg.SegmentBytes(g), IP.PseudoSum(h))
            && Seg.Decode(Seg.SegmentBytes(g)) == g.(message := Seg.Merged(m))
  {
    hide IP.HeaderBytes, IP.HeaderChecksum, IP.PayloadOf, IP.Decode;
    hide Seg.SegmentBytes, Seg.TotalSum, Seg.Decode, Fold, Field;
    var h, g := WrapHeader(cfg, m), WrapSegment(cfg, m);
    HeaderChecksumIgnoresField(PlainHeader(cfg, m), h.cksum);
    IP.HeaderAccepted(h, Seg.SegmentBytes(g));
    assert g.(cksum := 0) == Seg.Segment(m, cfg.source.port, cfg.destination.port, 0);
    Seg.OwnChecksumAccepted(g, IP.PseudoSum(h));
    Seg.SegmentRoundTrip(g);
  }

  /** The datagram describes itself. Its length field is the number of its bytes; the pseudo-header that its TCP
      checksum covers holds both addresses, the protocol and the length of the TCP segment; it is a single fragment
      between the two ends, without options and with the default time to live. */
  lemma DatagramDescribesItself(cfg: Config, m: TCPMessage)
    requires FitsDatagram(m)
    ensures var h, segment := WrapHeader(cfg, m), Seg.SegmentBytes(WrapSegment(cfg, m));
            && h.len == |WrapBytes(cfg, m)| == 20 + |segment| && h.ver == 4 && h.hlen == 5
            && h.src == cfg.source.ip && h.dst == cfg.destination.ip && h.proto == 6 && h.ttl == 128
            && h.df && !h.mf && h.offset == 0
            && IP.PseudoSum(h) == WordSum(Encode([Item(h.src / 0x1_0000, 2), Item(h.src, 2),
                                                  Item(h.dst / 0x1_0000, 2), Item(h.dst, 2),
                                                  Item(6, 2), Item(|segment|, 2)]), false)
            && Complement(U32(IP.PseudoSum(h) + WordSum(segment, false))) == 0
  {
    hide Encode, WordSum, Fold, IP.HeaderChecksum, IP.HeaderBytes, IP.PseudoSum;
    hide Seg.SegmentBytes, Seg.SegmentChecksum, Seg.Decode, Field, IP.Decode, IP.PayloadOf, IP.Acceptable;
    var h, g := WrapHeader(cfg, m), WrapSegment(cfg, m);
    IP.HeaderRoundTrip(h, []);
    Seg.SegmentLength(g);
    IP.PseudoIsHeaderSum(h);
    WrapDecodes(cfg, m);
  }

  /** Round trip: what one end of a connection wraps, the other end unwraps to the same message, up to the RST flag
      that the two halves share. */
  lemma RoundTrip(cfg: Config, m: TCPMessage)
    requires FitsDatagram(m) && !cfg.listening
    ensures ReceiveBytes(Mirror(cfg), WrapBytes(cfg, m)) == (Mirror(cfg), Some(Seg.Merged(m)))
  {
    hide IP.Acceptable, Seg.Acceptable, IP.Decode, Seg.Decode, IP.PayloadOf, WrapBytes, IP.PseudoSum;
    WrapDecodes(cfg, m);
  }

  /** A listening end takes on, from the first SYN addressed to its port, exactly the mirror image of the sender's
      configuration, and from then on the round trip holds for every message. Until then it takes nothing. */
  lemma ListenerBecomesMirror(listener: Config, cfg: Config, m: TCPMessage)
    requires FitsDatagram(m) && listener.listening
    ensures ReceiveBytes(listener, WrapBytes(cfg, m))
            == if listener.source.port == cfg.destination.port && m.sender.syn && !m.sender.rst && !m.receiver.rst
               then (Mirror(cfg), Some(Seg.Merged(m)))
               else (listener, None)
  {
    hide IP.Acceptable, Seg.Acceptable, IP.Decode, Seg.Decode, IP.PayloadOf, WrapBytes, IP.PseudoSum;
    WrapDecodes(cfg, m);
  }

  /** A connected end takes nothing from any other connection and stays as it is. */
  lemma OthersIgnored(cfg: Config, other: Config, m: TCPMessage)
    requires FitsDatagram(m) && !cfg.listening && (other.source != cfg.destination || other.destination != cfg.source)
    ensures ReceiveBytes(cfg, WrapBytes(other, m)) == (cfg, None)
  {
    hide IP.Acceptable, Seg.Acceptable, IP.Decode, Seg.Decode, IP.PayloadOf, WrapBytes, IP.PseudoSum;
    WrapDecodes(other, m);
  }
}
