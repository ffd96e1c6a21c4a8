/** The IPv4 header on the wire (section 3.1 of RFC 791). */
module IPv4Model {
  import opened Numbers
  import opened Bytes
  import opened Frames
  import opened Checksum

  const HEADER_LENGTH: nat := 20

  function FirstByte(h: IPv4Header): u8 {
    (h.ver * 16) % 256 + h.hlen % 16
  }

  /** Don't-fragment, more-fragments and the 13-bit offset. */
  function FragmentWord(h: IPv4Header): u16 {
    (if h.df then 0x4000 else 0) + (if h.mf then 0x2000 else 0) + h.offset % 0x2000
  }

  function HeaderItems(h: IPv4Header): seq<Item> {
    [Item(FirstByte(h), 1), Item(h.tos, 1), Item(h.len, 2), Item(h.id, 2), Item(FragmentWord(h), 2),
     Item(h.ttl, 1), Item(h.proto, 1), Item(h.cksum, 2), Item(h.src, 4), Item(h.dst, 4)]
  }

  function HeaderBytes(h: IPv4Header): seq<byte> {
    Encode(HeaderItems(h))
  }

  /** The checksum over the header with a zero checksum field. */
  function HeaderChecksum(h: IPv4Header): u16 {
    Complement(U32(WordSum(HeaderBytes(h.(cksum := 0)), false)))
  }

  function PayloadLength(h: IPv4Header): u16 {
    (h.len - 4 * h.hlen) % 0x1_0000
  }

  /** The pseudo-header's contribution to the TCP checksum. */
  function PseudoSum(h: IPv4Header): u32 {
    h.src / 0x1_0000 + h.src % 0x1_0000 + h.dst / 0x1_0000 + h.dst % 0x1_0000 + h.proto + PayloadLength(h)
  }

  /** The fields of the first 20 bytes, whatever they say. */
  function Decode(bs: seq<byte>): IPv4Header
    requires |bs| >= HEADER_LENGTH
  {
    Pow256Values();
    FieldBound(bs, 0, 1); FieldBound(bs, 1, 1); FieldBound(bs, 2, 2); FieldBound(bs, 4, 2); FieldBound(bs, 6, 2);
    FieldBound(bs, 8, 1); FieldBound(bs, 9, 1); FieldBound(bs, 10, 2); FieldBound(bs, 12, 4); FieldBound(bs, 16, 4);
    var first, fragment := Field(bs, 0, 1), Field(bs, 6, 2);
    IPv4Header(first / 16, first % 16, Field(bs, 1, 1), Field(bs, 2, 2), Field(bs, 4, 2),
               fragment / 0x4000 % 2 == 1, fragment / 0x2000 % 2 == 1, fragment % 0x2000,
               Field(bs, 8, 1), Field(bs, 9, 1), Field(bs, 10, 2), Field(bs, 12, 4), Field(bs, 16, 4))
  }

  /** Is bs the start of a datagram that the parser accepts? */
  predicate Acceptable(bs: seq<byte>) {
    |bs| >= HEADER_LENGTH &&
    var h := Decode(bs);
    h.ver == 4 && h.hlen >= 5 && h.cksum == HeaderChecksum(h)
  }

  /** What follows the header and its options. */
  function PayloadOf(bs: seq<byte>): seq<byte>
    requires |bs| >= HEADER_LENGTH
  {
    bs[Min(4 * Max(5, Decode(bs).hlen), |bs|)..]
  }

  // ----- round trip -----

  /** The header fields that have fewer bits on the wire than in memory hold what fits. */
  predicate WellFormed(h: IPv4Header) {
    h.ver == 4 && h.hlen < 16 && h.offset < 0x2000
  }

  /** Where the fields are. */
  lemma HeaderOffsets(h: IPv4Header)
    ensures var w := HeaderItems(h);
            && Width(w[..0]) == 0 && Width(w[..1]) == 1 && Width(w[..2]) == 2
            && Width(w[..3]) == 4 && Width(w[..4]) == 6
            && Width(w[..5]) == 8 && Width(w[..6]) == 9 && Width(w[..7]) == 10 && Width(w[..8]) == 12
            && Width(w[..9]) == 16 && Width(w) == HEADER_LENGTH && |HeaderBytes(h)| == HEADER_LENGTH
  {
    hide Encode, Width, ToBytes, FirstByte, FragmentWord;
    var w := HeaderItems(h);
    WidthStep(w, 0); WidthStep(w, 1); WidthStep(w, 2); WidthStep(w, 3); WidthStep(w, 4);
    WidthStep(w, 5); WidthStep(w, 6); WidthStep(w, 7); WidthStep(w, 8); WidthStep(w, 9);
    assert w[..10] == w;
    EncodeLength(w);
  }

  /** A well-formed header is read back as it was written, whatever follows it. */
  lemma HeaderRoundTrip(h: IPv4Header, rest: seq<byte>)
    requires WellFormed(h)
    ensures |HeaderBytes(h)| == HEADER_LENGTH && Decode(HeaderBytes(h) + rest) == h
  {
    hide Encode, Width, Field, ToBytes;
    var w := HeaderItems(h);
    Pow256Values();
    HeaderOffsets(h);
    FieldAt(w, 0, 0, rest); FieldAt(w, 1, 1, rest); FieldAt(w, 2, 2, rest); FieldAt(w, 3, 4, rest);
    FieldAt(w, 4, 6, rest); FieldAt(w, 5, 8, rest); FieldAt(w, 6, 9, rest); FieldAt(w, 7, 10, rest);
    FieldAt(w, 8, 12, rest); FieldAt(w, 9, 16, rest);
  }

  /** A header that carries its own checksum and no options is accepted, and what follows is the payload. */
  lemma HeaderAccepted(h: IPv4Header, rest: seq<byte>)
    requires WellFormed(h) && h.hlen == 5 && h.cksum == HeaderChecksum(h)
    ensures Acceptable(HeaderBytes(h) + rest) && PayloadOf(HeaderBytes(h) + rest) == rest
    ensures Decode(HeaderBytes(h) + rest) == h
  {
    HeaderRoundTrip(h, rest);
  }

  /** Options are skipped: with its own checksum (over the twenty bytes without them) a header with any options is
      accepted, and what follows them is the payload. If the length field holds the length of the whole datagram,
      the payload length that goes into the pseudo-header is that of the payload. */
  lemma OptionsSkipped(h: IPv4Header, options: seq<byte>, rest: seq<byte>)
    requires WellFormed(h) && h.hlen == 5 + |options| / 4 && |options| % 4 == 0
    requires h.cksum == HeaderChecksum(h)
    ensures var bs := HeaderBytes(h) + (options + rest);
            && Acceptable(bs) && Decode(bs) == h && PayloadOf(bs) == rest
            && (h.len == |bs| ==> PayloadLength(h) == |rest|)
  {
    HeaderRoundTrip(h, options + rest);
    hide HeaderBytes, HeaderChecksum, Decode;
    var bs := HeaderBytes(h) + (options + rest);
    assert bs[HEADER_LENGTH + |options|..] == bs[HEADER_LENGTH..][|options|..];
  }

  /** The header as five 32-bit words, as the standard draws them. */
  lemma HeaderWords(h: IPv4Header)
    requires WellFormed(h)
    ensures var bs := HeaderBytes(h);
            && |bs| == 20
            && Field(bs, 0, 4) == 0x4000_0000 + h.hlen * 0x100_0000 + h.tos * 0x1_0000 + h.len
            && Field(bs, 4, 4) == h.id * 0x1_0000 + (if h.df then 0x4000 else 0) + (if h.mf then 0x2000 else 0)
                                  + h.offset
            && Field(bs, 8, 4) == h.ttl * 0x100_0000 + h.proto * 0x1_0000 + h.cksum
            && Field(bs, 12, 4) == h.src
            && Field(bs, 16, 4) == h.dst
  {
    hide Encode, Field, Width, ToBytes;
    var w, bs := HeaderItems(h), HeaderBytes(h);
    Pow256Values();
    HeaderOffsets(h);
    assert bs + [] == bs;
    FieldAt(w, 0, 0, []); FieldAt(w, 1, 1, []); FieldAt(w, 2, 2, []); FieldAt(w, 3, 4, []); FieldAt(w, 4, 6, []);
    FieldAt(w, 5, 8, []); FieldAt(w, 6, 9, []); FieldAt(w, 7, 10, []); FieldAt(w, 8, 12, []); FieldAt(w, 9, 16, []);
    FieldJoin(bs, 0, 1, 1); FieldJoin(bs, 0, 2, 2);
    FieldJoin(bs, 4, 2, 2);
    FieldJoin(bs, 8, 1, 1); FieldJoin(bs, 8, 2, 2);
  }

  // ----- what the sums mean -----

  lemma SumOfEncoded(items: seq<Item>, v: nat)
    requires Width(items) % 2 == 0
    ensures WordSum(Encode(items + [Item(v, 2)]), false) == WordSum(Encode(items), false) + v % 0x1_0000
  {
    hide WordSum, Encode, ToBytes;
    EncodeSplit(items, [Item(v, 2)]);
    EncodeOne(Item(v, 2));
    EncodeLength(items);
    SumSplits(Encode(items), ToBytes(v, 2), false);
    TwoByteSum(v);
  }

  /** The standard's reading of the header checksum: summed over the whole header it verifies. */
  lemma HeaderVerifies(h: IPv4Header)
    requires h.cksum == HeaderChecksum(h)
    ensures Complement(WordSum(HeaderBytes(h), false)) == 0
  {
    hide WordSum, Encode, Fold, HeaderItems;
    var zero := HeaderBytes(h.(cksum := 0));
    HeaderSum(h);
    HeaderOffsets(h.(cksum := 0));
    SumBound(zero, false);
    ChecksumVerifies(WordSum(zero, false));
  }

  /** The checksum field adds its own value to the sum. */
  lemma HeaderSum(h: IPv4Header)
    ensures WordSum(HeaderBytes(h), false) == WordSum(HeaderBytes(h.(cksum := 0)), false) + h.cksum
  {
    hide WordSum, Encode;
    HeaderSplit(h);
    HeaderSplit(h.(cksum := 0));
    var w, w' := HeaderItems(h), HeaderItems(h.(cksum := 0));
    assert w[..7] == w'[..7] && w[8..] == w'[8..];
  }

  lemma HeaderSplit(h: IPv4Header)
    ensures var w := HeaderItems(h);
            WordSum(HeaderBytes(h), false) == WordSum(Encode(w[..7]), false) + h.cksum + WordSum(Encode(w[8..]), false)
  {
    hide WordSum, Encode, Width, ToBytes;
    var w := HeaderItems(h);
    HeaderOffsets(h);
    assert w == w[..8] + w[8..] && w[..8] == w[..7] + [Item(h.cksum, 2)];
    EncodeSplit(w[..8], w[8..]);
    EncodeLength(w[..8]);
    SumSplits(Encode(w[..8]), Encode(w[8..]), false);
    SumOfEncoded(w[..7], h.cksum);
  }

  /** The pseudo-header of section 3.1 of RFC 9293: addresses, a zero byte, the protocol and the payload length. */
  function PseudoItems(h: IPv4Header): seq<Item> {
    [Item(h.src / 0x1_0000, 2), Item(h.src, 2), Item(h.dst / 0x1_0000, 2), Item(h.dst, 2), Item(h.proto, 2),
     Item(PayloadLength(h), 2)]
  }

  /** The number the code computes without building the pseudo-header is the sum of its words. */
  lemma PseudoIsHeaderSum(h: IPv4Header)
    ensures PseudoSum(h) == WordSum(Encode(PseudoItems(h)), false)
  {
    hide WordSum, Encode, Width, PayloadLength;
    SixWords(h.src / 0x1_0000, h.src, h.dst / 0x1_0000, h.dst, h.proto, PayloadLength(h));
    HighWord(h.src);
    HighWord(h.dst);
    LowWord(h.proto);
    LowWord(PayloadLength(h));
  }

  lemma HighWord(x: u32)
    ensures (x / 0x1_0000) % 0x1_0000 == x / 0x1_0000
  {
  }

  lemma LowWord(x: u16)
    ensures x % 0x1_0000 == x
  {
  }

  lemma SixWords(a: nat, b: nat, c: nat, d: nat, e: nat, f: nat)
    ensures WordSum(Encode([Item(a, 2), Item(b, 2), Item(c, 2), Item(d, 2), Item(e, 2), Item(f, 2)]), false)
            == a % 0x1_0000 + b % 0x1_0000 + c % 0x1_0000 + d % 0x1_0000 + e % 0x1_0000 + f % 0x1_0000
  {
    TwoWords(a, b);
    TwoWords(c, d);
    TwoWords(e, f);
    hide WordSum, Encode, Width;
    var x, y, z := [Item(a, 2), Item(b, 2)], [Item(c, 2), Item(d, 2)], [Item(e, 2), Item(f, 2)];
    assert [Item(a, 2), Item(b, 2), Item(c, 2), Item(d, 2), Item(e, 2), Item(f, 2)] == x + (y + z);
    EncodeSplit(x, y + z);
    EncodeSplit(y, z);
    SumSplits(Encode(x), Encode(y) + Encode(z), false);
    SumSplits(Encode(y), Encode(z), false);
  }

  lemma TwoWords(a: nat, b: nat)
    ensures var bs := Encode([Item(a, 2), Item(b, 2)]);
            |bs| == 4 && WordSum(bs, false) == a % 0x1_0000 + b % 0x1_0000
  {
    assert [Item(a, 2), Item(b, 2)] == [Item(a, 2)] + [Item(b, 2)];
    SumOfEncoded([Item(a, 2)], b);
    EncodeOne(Item(a, 2));
    EncodeLength([Item(a, 2)] + [Item(b, 2)]);
    EncodeSplit([Item(a, 2)], [Item(b, 2)]);
    EncodeOne(Item(b, 2));
    TwoByteSum(a);
  }
}
