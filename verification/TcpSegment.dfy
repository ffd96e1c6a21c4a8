/** Parsing and serializing the TCP segment. */
module TcpSegments {
  import opened Numbers
  import opened Bytes
  import opened Messages
  import opened Checksum
  import opened Parsing
  import opened SegmentModel

  method Serialize(g: Segment, s: Serializer)
    requires s.Valid()
    modifies s
    ensures s.Valid() && s.Written() == old(s.Written()) + SegmentBytes(g)
  {
    hide Encode, ToBytes, Width, Flags;
    ghost var w, before := SegmentItems(g), s.Written();
    SerializePorts(g, s);
    s.IntegerOf(0x50, 1, w, 4, before);
    var flags := FlagByte(g.message);
    s.IntegerOf(flags, 1, w, 5, before);
    s.IntegerOf(g.message.receiver.window, 2, w, 6, before);
    s.IntegerOf(g.cksum, 2, w, 7, before);
    s.IntegerOf(0, 2, w, 8, before);
    assert w[..9] == w;
    s.Buffer(g.message.sender.payload);
    ConcatAssoc(before, Encode(w), g.message.sender.payload);
  }

  /** Ports, sequence number and acknowledgment number. */
  method SerializePorts(g: Segment, s: Serializer)
    requires s.Valid()
    modifies s
    ensures s.Valid() && s.Written() == old(s.Written()) + Encode(SegmentItems(g)[..4])
  {
    hide Encode, ToBytes, Width, Flags;
    ghost var w, before := SegmentItems(g), s.Written();
    EncodeNone(w);
    s.IntegerOf(g.srcPort, 2, w, 0, before);
    s.IntegerOf(g.dstPort, 2, w, 1, before);
    s.IntegerOf(g.message.sender.seqno, 4, w, 2, before);
    var ackno := match g.message.receiver.ackno case Some(k) => k case None => 0;
    s.IntegerOf(ackno, 4, w, 3, before);
  }

  method FlagByte(m: TCPMessage) returns (flags: u8)
    ensures flags == Flags(m)
  {
    var reset := m.sender.rst || m.receiver.rst;
    flags := (if m.receiver.ackno.Some? then 0x10 else 0) + (if reset then 4 else 0)
             + (if m.sender.syn then 2 else 0) + (if m.sender.fin then 1 else 0);
  }

  method ComputeChecksum(g: Segment, pseudo: u32) returns (r: Segment)
    ensures r == g.(cksum := SegmentChecksum(g, pseudo))
  {
    hide SegmentBytes, WordSum, Fold;
    r := g.(cksum := 0);
    var s := new Serializer();
    Serialize(r, s);
    assert s.Written() == SegmentBytes(r);
    var output := s.Output();
    var check := new InternetChecksum(pseudo);
    check.AddChunks(output);
    var value := check.Value();
    r := r.(cksum := value);
  }

  /** Read a segment. The parser is left in error exactly when the bytes are not acceptable; otherwise the
      segment is what they spell, however they were split into chunks. */
  method Parse(p: Parser, pseudo: u32) returns (g: Segment)
    requires p.Valid() && !p.error
    modifies p, p.input
    ensures p.error == !Acceptable(old(p.Remaining()), pseudo)
    ensures !p.error ==> g == Decode(old(p.Remaining()))
  {
    hide Field, TotalSum, Fold, PayloadOf;
    var none := SenderMessage(0, false, [], false, false);
    g := Segment(TCPMessage(none, ReceiverMessage(None, 0, false)), 0, 0, 0);
    VerifyChecksum(p, pseudo);
    if p.error {
      return;
    }
    var offset;
    g, offset := ReadFields(p);
    if offset < 5 {
      p.SetError();
    }
    var payload := ReadPayload(p, offset, old(p.Remaining()));
    g := g.(message := g.message.(sender := g.message.sender.(payload := payload)));
  }

  method VerifyChecksum(p: Parser, pseudo: u32)
    requires p.Valid() && !p.error
    modifies p`error
    ensures p.Valid() && p.Remaining() == old(p.Remaining())
    ensures p.error == (Complement(TotalSum(p.Remaining(), pseudo)) != 0)
  {
    hide WordSum, Fold;
    var check := new InternetChecksum(pseudo);
    check.AddChunks(p.input.Chunks());
    var value := check.Value();
    if value != 0 {
      p.SetError();
    }
  }

  /** Skip the options, or everything when the data offset is too small, and take the rest. */
  method ReadPayload(p: Parser, offset: nat, ghost all: seq<byte>) returns (payload: seq<byte>)
    requires p.Valid() && offset < 16
    requires !p.error ==>
               && |all| >= MIN_LENGTH && p.Remaining() == all[MIN_LENGTH..] && 5 <= offset == Field(all, 12, 1) / 16
    modifies p.input
    ensures p.error == old(p.error)
    ensures !p.error ==> payload == PayloadOf(all)
  {
    hide Field, Flatten, OptionsLength;
    var extra := OptionsLength(offset);
    p.RemovePrefix(extra);
    if !p.error {
      DropDrop(all, MIN_LENGTH, Min(extra, |all| - MIN_LENGTH));
    }
    var chunks := p.AllRemaining();
    payload := Join(chunks);
  }

  /** Ten integers: everything before the options. */
  method ReadFields(p: Parser) returns (g: Segment, offset: nat)
    requires p.Valid() && !p.error
    modifies p, p.input
    ensures p.Valid() && p.error == (old(|p.Remaining()|) < MIN_LENGTH) && offset < 16
    ensures !p.error ==>
              var all := old(p.Remaining());
              var m := Decode(all).message;
              && offset == Field(all, 12, 1) / 16 && p.Remaining() == all[MIN_LENGTH..]
              && g == Decode(all).(message := m.(sender := m.sender.(payload := [])))
  {
    hide Field, Flatten, EmptyLast;
    ghost var all := p.Remaining();
    var srcPort, dstPort, seqno, ackno := ReadNumbers(p, all);
    var octet, flags, window, cksum := ReadRest(p, all);
    offset := octet / 16;
    var rst := flags / 4 % 2 == 1;
    g := Segment(TCPMessage(SenderMessage(seqno, flags / 2 % 2 == 1, [], flags % 2 == 1, rst),
                            ReceiverMessage(if flags / 16 % 2 == 1 then Some(ackno) else None, window, rst)),
                 srcPort, dstPort, cksum);
  }

  /** Ports, sequence and acknowledgment number. */
  method ReadNumbers(p: Parser, ghost all: seq<byte>) returns (srcPort: u16, dstPort: u16, seqno: u32, ackno: u32)
    requires p.Valid() && !p.error && p.Remaining() == all
    modifies p`error, p.input
    ensures p.Valid() && p.error == (|all| < 12)
    ensures !p.error ==>
              && srcPort == Field(all, 0, 2) && dstPort == Field(all, 2, 2) && seqno == Field(all, 4, 4)
              && ackno == Field(all, 8, 4) && p.Remaining() == all[12..]
  {
    hide Field, Flatten, EmptyLast;
    Pow256Values();
    srcPort := p.IntegerAt(2, all, 0);
    dstPort := p.IntegerAt(2, all, 2);
    seqno := p.IntegerAt(4, all, 4);
    ackno := p.IntegerAt(4, all, 8);
  }

  /** Data offset, flags, window, checksum, and the urgent pointer, which is dropped. */
  method ReadRest(p: Parser, ghost all: seq<byte>) returns (octet: u8, flags: u8, window: u16, cksum: u16)
    requires p.Valid() && p.error == (|all| < 12) && (!p.error ==> p.Remaining() == all[12..])
    modifies p`error, p.input
    ensures p.Valid() && p.error == (|all| < MIN_LENGTH)
    ensures !p.error ==>
              && octet == Field(all, 12, 1) && flags == Field(all, 13, 1) && window == Field(all, 14, 2)
              && cksum == Field(all, 16, 2) && p.Remaining() == all[MIN_LENGTH..]
  {
    hide Field, Flatten, EmptyLast;
    Pow256Values();
    octet := p.IntegerAt(1, all, 12);
    flags := p.IntegerAt(1, all, 13);
    window := p.IntegerAt(2, all, 14);
    cksum := p.IntegerAt(2, all, 16);
    var urgent := p.IntegerAt(2, all, 18);
  }

  method Join(chunks: seq<seq<byte>>) returns (out: seq<byte>)
    ensures out == Flatten(chunks)
  {
    out := [];
    for i := 0 to |chunks|
      invariant out == Flatten(chunks[..i])
    {
      assert chunks[..i + 1] == chunks[..i] + [chunks[i]];
      FlattenAppend(chunks[..i], [chunks[i]]);
      FlattenOne(chunks[i]);
      out := out + chunks[i];
    }
    assert chunks[..|chunks|] == chunks;
  }
}
