/** Parsing and serializing the IPv4 header. */
module IPv4 {
  import opened Numbers
  import opened Bytes
  import opened Frames
  import opened Checksum
  import opened Parsing
  import opened IPv4Model

  /** Write the header; nothing is written, and the result is false, when the version is not 4. */
  method Serialize(h: IPv4Header, s: Serializer) returns (ok: bool)
    requires s.Valid()
    modifies s
    ensures s.Valid() && ok == (h.ver == 4)
    ensures s.Written() == old(s.Written()) + if ok then HeaderBytes(h) else []
  {
    if h.ver != 4 {
      return false;
    }
    ghost var before := s.Written();
    SerializeFront(h, s);
    hide Encode, ToBytes, Width;
    ghost var w := HeaderItems(h);
    s.IntegerOf(h.ttl, 1, w, 5, before);
    s.IntegerOf(h.proto, 1, w, 6, before);
    s.IntegerOf(h.cksum, 2, w, 7, before);
    s.IntegerOf(h.src, 4, w, 8, before);
    s.IntegerOf(h.dst, 4, w, 9, before);
    assert w[..10] == w;
    return true;
  }

  /** The fields up to the fragment offset. */
  method SerializeFront(h: IPv4Header, s: Serializer)
    requires s.Valid()
    modifies s
    ensures s.Valid() && s.Written() == old(s.Written()) + Encode(HeaderItems(h)[..5])
  {
    hide Encode, ToBytes, Width;
    ghost var w, before := HeaderItems(h), s.Written();
    EncodeNone(w);
    s.IntegerOf((h.ver * 16) % 256 + h.hlen % 16, 1, w, 0, before);
    s.IntegerOf(h.tos, 1, w, 1, before);
    s.IntegerOf(h.len, 2, w, 2, before);
    s.IntegerOf(h.id, 2, w, 3, before);
    var fragment := (if h.df then 0x4000 else 0) + (if h.mf then 0x2000 else 0) + h.offset % 0x2000;
    s.IntegerOf(fragment, 2, w, 4, before);
  }

  /** The header with its checksum field set to the correct value. */
  method ComputeChecksum(h: IPv4Header) returns (r: IPv4Header)
    requires h.ver == 4
    ensures r == h.(cksum := HeaderChecksum(h))
  {
    r := h.(cksum := 0);
    var s := new Serializer();
    var ok := Serialize(r, s);
    assert s.Written() == HeaderBytes(r);
    var output := s.Output();
    var check := new InternetChecksum(0);
    check.AddChunks(output);
    var value := check.Value();
    r := r.(cksum := value);
  }

  /** Read a header. The parser is left in error exactly when the bytes are not acceptable; otherwise the
      header is what they spell, and what follows it remains. */
  method Parse(p: Parser) returns (h: IPv4Header)
    requires p.Valid() && !p.error
    modifies p, p.input
    ensures p.Valid() && p.error == !Acceptable(old(p.Remaining()))
    ensures !p.error ==> h == Decode(old(p.Remaining())) && p.Remaining() == PayloadOf(old(p.Remaining()))
  {
    ghost var all := p.Remaining();
    AcceptableIs(all);
    hide EmptyLast, Flatten, HeaderChecksum, HeaderBytes, Decode, Field, Acceptable, PayloadOf;
    h := ReadFields(p);
    if h.ver != 4 {
      p.SetError();
    }
    if h.hlen < 5 {
      p.SetError();
    }
    if p.error {
      return;
    }
    p.RemovePrefix(h.hlen * 4 - HEADER_LENGTH);
    var given := h.cksum;
    h := ComputeChecksum(h);
    if h.cksum != given {
      p.SetError();
    }
  }

  /** When a header is acceptable, and what is left after it. */
  lemma AcceptableIs(all: seq<byte>)
    ensures |all| < HEADER_LENGTH ==> !Acceptable(all)
    ensures |all| >= HEADER_LENGTH ==>
              var h := Decode(all);
              && (Acceptable(all) <==> h.ver == 4 && h.hlen >= 5 && h.cksum == HeaderChecksum(h))
              && (h.hlen >= 5 ==>
                    all[HEADER_LENGTH..][Min(h.hlen * 4 - HEADER_LENGTH, |all| - HEADER_LENGTH)..] == PayloadOf(all))
  {
    hide Decode, HeaderChecksum;
    if |all| >= HEADER_LENGTH && Decode(all).hlen >= 5 {
      DropDrop(all, HEADER_LENGTH, Min(Decode(all).hlen * 4 - HEADER_LENGTH, |all| - HEADER_LENGTH));
    }
  }

  /** The ten integers of the header. */
  method ReadFields(p: Parser) returns (h: IPv4Header)
    requires p.Valid() && !p.error
    modifies p, p.input
    ensures p.Valid() && p.error == (old(|p.Remaining()|) < HEADER_LENGTH)
    ensures !p.error ==> h == Decode(old(p.Remaining())) && p.Remaining() == old(p.Remaining())[HEADER_LENGTH..]
  {
    hide Field, Flatten, EmptyLast;
    Pow256Values();
    ghost var all := p.Remaining();
    var first, tos, len, id, fragment := ReadFront(p, all);
    var ttl, proto, cksum, src, dst := ReadBack(p, all);
    h := IPv4Header(first / 16, first % 16, tos, len, id, fragment / 0x4000 % 2 == 1, fragment / 0x2000 % 2 == 1,
                    fragment % 0x2000, ttl, proto, cksum, src, dst);
  }

  /** The integers up to the fragment offset. */
  method ReadFront(p: Parser, ghost all: seq<byte>) returns (first: u8, tos: u8, len: u16, id: u16, fragment: u16)
    requires p.Valid() && !p.error && p.Remaining() == all
    modifies p`error, p.input
    ensures p.Valid() && p.error == (|all| < 8)
    ensures !p.error ==>
              && first == Field(all, 0, 1) && tos == Field(all, 1, 1) && len == Field(all, 2, 2)
              && id == Field(all, 4, 2) && fragment == Field(all, 6, 2) && p.Remaining() == all[8..]
  {
    hide Field, Flatten, EmptyLast;
    Pow256Values();
    first := p.IntegerAt(1, all, 0);
    tos := p.IntegerAt(1, all, 1);
    len := p.IntegerAt(2, all, 2);
    id := p.IntegerAt(2, all, 4);
    fragment := p.IntegerAt(2, all, 6);
  }

  /** The integers from the time to live on. */
  method ReadBack(p: Parser, ghost all: seq<byte>) returns (ttl: u8, proto: u8, cksum: u16, src: u32, dst: u32)
    requires p.Valid() && p.error == (|all| < 8) && (!p.error ==> p.Remaining() == all[8..])
    modifies p`error, p.input
    ensures p.Valid() && p.error == (|all| < HEADER_LENGTH)
    ensures !p.error ==>
              && ttl == Field(all, 8, 1) && proto == Field(all, 9, 1) && cksum == Field(all, 10, 2)
              && src == Field(all, 12, 4) && dst == Field(all, 16, 4) && p.Remaining() == all[HEADER_LENGTH..]
  {
    hide Field, Flatten, EmptyLast;
    Pow256Values();
    ttl := p.IntegerAt(1, all, 8);
    proto := p.IntegerAt(1, all, 9);
    cksum := p.IntegerAt(2, all, 10);
    src := p.IntegerAt(4, all, 12);
    dst := p.IntegerAt(4, all, 16);
  }
}
