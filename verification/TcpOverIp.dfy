/** The TCP-over-IPv4 adapter object. */
module TcpOverIp {
  import opened Numbers
  import opened Bytes
  import opened Frames
  import opened Messages
  import opened Parsing
  import opened TcpOverIpModel
  import Model = TcpOverIpModel
  import IP = IPv4Model
  import IPv4
  import Seg = SegmentModel
  import TcpSegments

  class TCPOverIPv4Adapter {
    var source: Address
    var destination: Address
    var listening: bool

    function View(): Config
      reads this
    {
      Config(source, destination, listening)
    }

    constructor (cfg: Config)
      ensures View() == cfg
    {
      source, destination, listening := cfg.source, cfg.destination, cfg.listening;
    }

    method WrapTcpInIp(msg: TCPMessage) returns (dgram: Datagram)
      ensures dgram.header == WrapHeader(View(), msg)
      ensures Flatten(dgram.payload) == Seg.SegmentBytes(WrapSegment(View(), msg)) && Solid(dgram.payload)
    {
      hide IP.HeaderChecksum, IP.HeaderBytes, Seg.SegmentBytes, Seg.TotalSum;
      var seg := Seg.Segment(msg, source.port, destination.port, 0);
      var header := IPv4Header(4, 5, 0, 0, 0, true, false, 0, TTL_DEFAULT, PROTO_TCP, 0, source.ip, destination.ip);
      header := header.(len := (header.hlen * 4 + 20 + |msg.sender.payload|) % 0x1_0000);
      seg := TcpSegments.ComputeChecksum(seg, IP.PseudoSum(header));
      header := IPv4.ComputeChecksum(header);
      var s := new Serializer();
      TcpSegments.Serialize(seg, s);
      assert s.Written() == Seg.SegmentBytes(seg);
      var payload := s.Output();
      dgram := Datagram(header, payload);
    }

    /** The result depends on the bytes of the payload only, not on how they are split into chunks. */
    method UnwrapTcpInIp(dgram: Datagram) returns (msg: Option<TCPMessage>)
      requires EmptyLast(dgram.payload)
      modifies this
      ensures (View(), msg) == Model.Unwrap(old(View()), dgram.header, Flatten(dgram.payload))
    {
      hide Seg.Acceptable, Seg.Decode, IP.PseudoSum, Flatten;
      msg := None;
      if !listening && dgram.header.dst != source.ip {
        return;
      }
      if !listening && dgram.header.src != destination.ip {
        return;
      }
      if dgram.header.proto != PROTO_TCP {
        return;
      }
      var p := new Parser(dgram.payload);
      var seg := TcpSegments.Parse(p, IP.PseudoSum(dgram.header));
      if p.error {
        return;
      }
      if seg.dstPort != source.port {
        return;
      }
      if listening {
        if seg.message.sender.syn && !seg.message.sender.rst {
          source := Address(dgram.header.dst, source.port);
          destination := Address(dgram.header.src, seg.srcPort);
          listening := false;
        } else {
          return;
        }
      }
      if seg.srcPort != destination.port {
        return;
      }
      msg := Some(seg.message);
    }
  }

  /** Read a datagram: the header, then everything that follows as the payload. */
  method ParseDatagram(p: Parser) returns (dgram: Datagram)
    requires p.Valid() && !p.error
    modifies p, p.input
    ensures p.error == !IP.Acceptable(old(p.Remaining()))
    ensures !p.error ==>
              && dgram.header == IP.Decode(old(p.Remaining())) && EmptyLast(dgram.payload)
              && Flatten(dgram.payload) == IP.PayloadOf(old(p.Remaining()))
  {
    hide IP.Acceptable, IP.Decode, IP.PayloadOf, Flatten;
    var header := IPv4.Parse(p);
    var payload := p.AllRemaining();
    dgram := Datagram(header, payload);
  }

  /** Write a datagram; false, and nothing written, when its version is not 4. */
  method SerializeDatagram(dgram: Datagram, s: Serializer) returns (ok: bool)
    requires s.Valid()
    modifies s
    ensures s.Valid() && ok == (dgram.header.ver == 4)
    ensures s.Written() == old(s.Written()) + if ok then IP.HeaderBytes(dgram.header) + Flatten(dgram.payload) else []
  {
    hide IP.HeaderBytes, Flatten;
    ghost var before := s.Written();
    ok := IPv4.Serialize(dgram.header, s);
    if ok {
      s.Buffers(dgram.payload);
      ConcatAssoc(before, IP.HeaderBytes(dgram.header), Flatten(dgram.payload));
    }
  }
}
