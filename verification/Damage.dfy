/** What becomes of damaged and foreign datagrams. */
module Damage {
  import opened Numbers
  import opened Bytes
  import opened Frames
  import opened Messages
  import opened Checksum
  import opened TcpOverIpModel
  import opened HeaderAcceptance
  import IP = IPv4Model
  import Seg = SegmentModel

  /** The reserved bit is clear in what is written. */
  lemma WrittenFixed(h: IPv4Header, rest: seq<byte>)
    requires IP.WellFormed(h)
    ensures |IP.HeaderBytes(h)| == 20 && Fixed(IP.HeaderBytes(h) + rest) == IP.HeaderBytes(h)
    ensures IP.HeaderBytes(h)[6] < 128
  {
    IP.HeaderRoundTrip(h, rest);
    ReadThenWritten(IP.HeaderBytes(h) + rest);
    hide IP.HeaderBytes, IP.Decode;
    assert Fixed(IP.HeaderBytes(h) + rest)[6] as int == IP.HeaderBytes(h)[6] as int % 128;
  }

  /** With the reserved bit changed, the header is read as before. */
  lemma ReservedBitUnread(h: IPv4Header, rest: seq<byte>, b: byte)
    requires IP.WellFormed(h) && |IP.HeaderBytes(h)| == 20 && b as int == IP.HeaderBytes(h)[6] as int + 128
    ensures IP.Decode((IP.HeaderBytes(h) + rest)[6 := b]) == h
  {
    var hb := IP.HeaderBytes(h);
    var bs := (hb + rest)[6 := b];
    WrittenFixed(h, rest);
    assert Fixed(bs) == hb;
    ReadThenWritten(bs);
    FirstByteIs(h);
    FieldOfOne(bs, 0);
    assert IP.WellFormed(IP.Decode(bs)) by {
      FieldBound(bs, 0, 1);
      Pow256Values();
      hide Field, IP.HeaderBytes, Fixed;
    }
    IP.HeaderRoundTrip(IP.Decode(bs), []);
    IP.HeaderRoundTrip(h, []);
    hide IP.HeaderBytes, IP.Decode, Fixed;
  }

  /** A changed header byte is either the reserved bit alone, which is not read, or makes the header unacceptable. */
  lemma DamagedHeader(h: IPv4Header, rest: seq<byte>, i: nat, b: byte)
    requires IP.WellFormed(h) && h.hlen == 5 && h.cksum == IP.HeaderChecksum(h)
    requires i < 20 && |IP.HeaderBytes(h)| == 20 && b != IP.HeaderBytes(h)[i]
    ensures var bs := (IP.HeaderBytes(h) + rest)[i := b];
            if i == 6 && b as int == IP.HeaderBytes(h)[6] as int + 128
            then IP.Acceptable(bs) && IP.Decode(bs) == h && IP.PayloadOf(bs) == rest
            else !IP.Acceptable(bs)
  {
    hide IP.HeaderBytes, IP.Decode, IP.HeaderChecksum, WordSum, Complement;
    var hb := IP.HeaderBytes(h);
    var bs := (hb + rest)[i := b];
    WrittenFixed(h, rest);
    if i == 6 && b as int == hb[6] as int + 128 {
      ReservedBitUnread(h, rest, b);
      assert bs[20..] == rest;
    } else {
      var c := if i == 6 then (b as int % 128) as byte else b;
      assert Fixed(bs) == hb[i := c] && c != hb[i];
      IP.HeaderVerifies(h);
      CorruptionDetected(hb, i, c, 0);
      AcceptableIff(bs);
    }
  }

  /** Integrity of what travels. Whatever single byte of a datagram is changed on the way, the other end finds no
      message in it, unless the change is the reserved bit alone; then it finds the very message that was sent. */
  lemma DamageDetected(cfg: Config, m: TCPMessage, i: nat, b: byte)
    requires FitsDatagram(m) && !cfg.listening && i < |WrapBytes(cfg, m)| && b != WrapBytes(cfg, m)[i]
    ensures var bs := WrapBytes(cfg, m);
            ReceiveBytes(Mirror(cfg), bs[i := b])
            == (Mirror(cfg),
                if i == 6 && b as int == bs[6] as int + 128 then Some(Seg.Merged(m)) else None)
  {
    hide IP.HeaderBytes, IP.Decode, IP.HeaderChecksum, IP.PseudoSum, IP.Acceptable, IP.PayloadOf;
    hide Seg.SegmentBytes, Seg.Acceptable, Seg.Decode, Seg.SegmentChecksum;
    var h, g := WrapHeader(cfg, m), WrapSegment(cfg, m);
    var hb, sb := IP.HeaderBytes(h), Seg.SegmentBytes(g);
    HeaderChecksumIgnoresField(PlainHeader(cfg, m), h.cksum);
    WrapDecodes(cfg, m);
    IP.HeaderRoundTrip(h, sb);
    if i < 20 {
      DamagedHeader(h, sb, i, b);
    } else {
      assert (hb + sb)[i := b] == hb + sb[i - 20 := b];
      IP.HeaderAccepted(h, sb[i - 20 := b]);
      Seg.SegmentLength(g);
      PseudoFits(h);
      Seg.CorruptSegmentRejected(sb, IP.PseudoSum(h), i - 20, b);
    }
  }

  lemma PseudoFits(h: IPv4Header)
    ensures IP.PseudoSum(h) < 0x10_0000
  {
  }

  /** A datagram of any other protocol is left alone, whoever it is from and whatever is in it. */
  lemma OtherProtocolsIgnored(cfg: Config, bs: seq<byte>)
    requires |bs| >= 20 && bs[9] != 6
    ensures ReceiveBytes(cfg, bs) == (cfg, None)
  {
    FieldOfOne(bs, 9);
    assert IP.Decode(bs).proto == bs[9] as int;
    hide Field, IP.Decode, Seg.Decode, IP.Acceptable, Seg.Acceptable;
  }
}
