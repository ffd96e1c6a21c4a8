/** The TCP segment on the wire (section 3.1 of RFC 9293). */
module SegmentModel {
  import opened Numbers
  import opened Bytes
  import opened Messages
  import opened Checksum

  const MIN_LENGTH: nat := 20

  datatype Segment = Segment(message: TCPMessage, srcPort: u16, dstPort: u16, cksum: u16)

  /** ACK, RST (of either half), SYN and FIN. */
  function Flags(m: TCPMessage): u8 {
    (if m.receiver.ackno.Some? then 0x10 else 0) + (if m.sender.rst || m.receiver.rst then 4 else 0)
    + (if m.sender.syn then 2 else 0) + (if m.sender.fin then 1 else 0)
  }

  /** The fields before the checksum; the header is `words` 32-bit words long. */
  function FixedItems(g: Segment, words: nat): seq<Item> {
    [Item(g.srcPort, 2), Item(g.dstPort, 2), Item(g.message.sender.seqno, 4),
     Item(if g.message.receiver.ackno.Some? then g.message.receiver.ackno.value else 0, 4),
     Item(16 * words, 1), Item(Flags(g.message), 1), Item(g.message.receiver.window, 2)]
  }

  function HeaderItems(g: Segment, words: nat): seq<Item> {
    FixedItems(g, words) + [Item(g.cksum, 2), Item(0, 2)]
  }

  /** The fields of a segment without options. */
  function SegmentItems(g: Segment): seq<Item> {
    HeaderItems(g, 5)
  }

  function SegmentBytes(g: Segment): seq<byte> {
    Encode(SegmentItems(g)) + g.message.sender.payload
  }

  /** The sum of the whole segment behind a pseudo-header sum, in 32 bits. */
  function TotalSum(bs: seq<byte>, pseudo: u32): u32 {
    U32(pseudo + WordSum(bs, false))
  }

  function SegmentChecksum(g: Segment, pseudo: u32): u16 {
    Complement(TotalSum(SegmentBytes(g.(cksum := 0)), pseudo))
  }

  predicate Acceptable(bs: seq<byte>, pseudo: u32) {
    Complement(TotalSum(bs, pseudo)) == 0 && |bs| >= MIN_LENGTH && Field(bs, 12, 1) / 16 >= 5
  }

  /** The two halves of a message share one RST flag on the wire. */
  function Merged(m: TCPMessage): TCPMessage {
    var rst := m.sender.rst || m.receiver.rst;
    TCPMessage(m.sender.(rst := rst), m.receiver.(rst := rst))
  }

  /** What follows the header and its options. */
  function PayloadOf(bs: seq<byte>): seq<byte>
    requires |bs| >= MIN_LENGTH
  {
    bs[Min(4 * Max(5, Field(bs, 12, 1) / 16), |bs|)..]
  }

  /** How much to skip behind the fixed part for a data offset; a too small one wraps to a huge count. */
  function OptionsLength(offset: nat): (n: u32)
    requires offset < 16
    ensures offset >= 5 ==> n == 4 * offset - 20
  {
    U32(4 * offset as int - 20)
  }

  /** What the bytes say; options are skipped. */
  function Decode(bs: seq<byte>): Segment
    requires |bs| >= MIN_LENGTH
  {
    Pow256Values();
    FieldBound(bs, 0, 2); FieldBound(bs, 2, 2); FieldBound(bs, 4, 4); FieldBound(bs, 8, 4); FieldBound(bs, 12, 1);
    FieldBound(bs, 13, 1); FieldBound(bs, 14, 2); FieldBound(bs, 16, 2);
    var flags := Field(bs, 13, 1);
    var payload := PayloadOf(bs);
    var rst := flags / 4 % 2 == 1;
    Segment(TCPMessage(SenderMessage(Field(bs, 4, 4), flags / 2 % 2 == 1, payload, flags % 2 == 1, rst),
                       ReceiverMessage(if flags / 16 % 2 == 1 then Some(Field(bs, 8, 4)) else None,
                                       Field(bs, 14, 2), rst)),
            Field(bs, 0, 2), Field(bs, 2, 2), Field(bs, 16, 2))
  }

  /** Where the fields are. */
  lemma SegmentOffsets(g: Segment, words: nat)
    ensures var w := HeaderItems(g, words);
            && Width(w[..0]) == 0 && Width(w[..1]) == 2 && Width(w[..2]) == 4
            && Width(w[..3]) == 8 && Width(w[..4]) == 12
            && Width(w[..5]) == 13 && Width(w[..6]) == 14 && Width(w[..7]) == 16 && Width(w[..8]) == 18
            && Width(w) == MIN_LENGTH && |Encode(w)| == MIN_LENGTH
  {
    hide Encode, Width, ToBytes, Flags;
    var w := HeaderItems(g, words);
    WidthStep(w, 0); WidthStep(w, 1); WidthStep(w, 2); WidthStep(w, 3); WidthStep(w, 4);
    WidthStep(w, 5); WidthStep(w, 6); WidthStep(w, 7); WidthStep(w, 8);
    assert w[..9] == w;
    EncodeLength(w);
  }

  /** The fields are read back as they were written, whatever follows them. */
  lemma SegmentFields(g: Segment, words: nat, rest: seq<byte>)
    requires words < 16
    ensures var bs := Encode(HeaderItems(g, words)) + rest;
            && |bs| == MIN_LENGTH + |rest| && bs[MIN_LENGTH..] == rest
            && Field(bs, 0, 2) == g.srcPort && Field(bs, 2, 2) == g.dstPort && Field(bs, 4, 4) == g.message.sender.seqno
            && Field(bs, 8, 4) == (if g.message.receiver.ackno.Some? then g.message.receiver.ackno.value else 0)
            && Field(bs, 12, 1) == 16 * words && Field(bs, 13, 1) == Flags(g.message)
            && Field(bs, 14, 2) == g.message.receiver.window && Field(bs, 16, 2) == g.cksum && Field(bs, 18, 2) == 0
  {
    hide Encode, Width, ToBytes, Field, Flags;
    var w := HeaderItems(g, words);
    Pow256Values();
    SegmentOffsets(g, words);
    FieldAt(w, 0, 0, rest); FieldAt(w, 1, 2, rest); FieldAt(w, 2, 4, rest); FieldAt(w, 3, 8, rest);
    FieldAt(w, 4, 12, rest); FieldAt(w, 5, 13, rest); FieldAt(w, 6, 14, rest); FieldAt(w, 7, 16, rest);
    FieldAt(w, 8, 18, rest);
  }

  lemma SegmentLength(g: Segment)
    ensures |SegmentBytes(g)| == MIN_LENGTH + |g.message.sender.payload|
  {
    hide Encode, HeaderItems;
    SegmentOffsets(g, 5);
  }

  /** The segment as five 32-bit words and the payload, as the standard draws them; ACK, RST, SYN and FIN are bits
      20, 18, 17 and 16 of the fourth. */
  lemma SegmentWords(g: Segment)
    ensures var bs, m := SegmentBytes(g), g.message;
            && |bs| == 20 + |m.sender.payload| && bs[20..] == m.sender.payload
            && Field(bs, 0, 4) == g.srcPort * 0x1_0000 + g.dstPort
            && Field(bs, 4, 4) == m.sender.seqno
            && Field(bs, 8, 4) == (if m.receiver.ackno.Some? then m.receiver.ackno.value else 0)
            && Field(bs, 12, 4) == 0x5000_0000 + (if m.receiver.ackno.Some? then 0x10_0000 else 0)
                                   + (if m.sender.rst || m.receiver.rst then 0x4_0000 else 0)
                                   + (if m.sender.syn then 0x2_0000 else 0) + (if m.sender.fin then 0x1_0000 else 0)
                                   + m.receiver.window
            && Field(bs, 16, 4) == g.cksum * 0x1_0000
  {
    hide Encode, Field, HeaderItems;
    var bs := SegmentBytes(g);
    Pow256Values();
    SegmentFields(g, 5, g.message.sender.payload);
    FieldJoin(bs, 0, 2, 2);
    FieldJoin(bs, 12, 1, 1);
    FieldJoin(bs, 12, 2, 2);
    FieldJoin(bs, 16, 2, 2);
  }

  /** A segment with options, a whole number of 32-bit words, behind the fixed header. */
  function WithOptions(g: Segment, options: seq<byte>): seq<byte> {
    Encode(HeaderItems(g, 5 + |options| / 4)) + (options + g.message.sender.payload)
  }

  /** What a segment with options says does not depend on them. */
  lemma OptionsRoundTrip(g: Segment, options: seq<byte>)
    requires |options| % 4 == 0 && |options| <= 40
    ensures |WithOptions(g, options)| >= MIN_LENGTH
    ensures Decode(WithOptions(g, options)) == g.(message := Merged(g.message))
  {
    hide Encode, Field, HeaderItems;
    var bs := WithOptions(g, options);
    SegmentFields(g, 5 + |options| / 4, options + g.message.sender.payload);
    assert bs[MIN_LENGTH + |options|..] == bs[MIN_LENGTH..][|options|..];
    assert PayloadOf(bs) == g.message.sender.payload;
  }

  /** A segment is read back as it was written, up to the shared RST flag. */
  lemma SegmentRoundTrip(g: Segment)
    ensures |SegmentBytes(g)| >= MIN_LENGTH
    ensures Decode(SegmentBytes(g)) == g.(message := Merged(g.message))
  {
    hide Encode, Decode, HeaderItems;
    assert [] + g.message.sender.payload == g.message.sender.payload;
    OptionsRoundTrip(g, []);
  }

  // ----- checksum -----

  /** The checksum field adds its own value to the sum. */
  lemma SumWithChecksum(g: Segment, words: nat, rest: seq<byte>)
    ensures WordSum(Encode(HeaderItems(g, words)) + rest, false)
         == WordSum(Encode(HeaderItems(g.(cksum := 0), words)) + rest, false) + g.cksum
  {
    SplitAtChecksum(g, words, rest);
    SplitAtChecksum(g.(cksum := 0), words, rest);
    TwoByteSum(g.cksum);
    TwoByteSum(0);
  }

  lemma SplitAtChecksum(g: Segment, words: nat, rest: seq<byte>)
    ensures var front, back := Encode(FixedItems(g, words)), Encode([Item(0, 2)]) + rest;
            WordSum(Encode(HeaderItems(g, words)) + rest, false)
            == WordSum(front, false) + WordSum(ToBytes(g.cksum, 2), false) + WordSum(back, false)
  {
    hide Encode, Width, ToBytes, WordSum, Flags;
    var front, back := Encode(FixedItems(g, words)), Encode([Item(0, 2)]) + rest;
    var fixed, items := FixedItems(g, words), HeaderItems(g, words);
    assert items == fixed + ([Item(g.cksum, 2)] + [Item(0, 2)]);
    EncodeSplit(fixed, [Item(g.cksum, 2)] + [Item(0, 2)]);
    EncodeSplit([Item(g.cksum, 2)], [Item(0, 2)]);
    EncodeOne(Item(g.cksum, 2));
    assert Encode(items) + rest == front + (ToBytes(g.cksum, 2) + back);
    SegmentOffsets(g, words);
    assert items[..7] == fixed;
    EncodeLength(fixed);
    SumSplits(front, ToBytes(g.cksum, 2) + back, false);
    SumSplits(ToBytes(g.cksum, 2), back, false);
  }

  /** The checksum that belongs to a header of so many words and what follows it. */
  function ChecksumOver(g: Segment, words: nat, rest: seq<byte>, pseudo: u32): u16 {
    Complement(TotalSum(Encode(HeaderItems(g.(cksum := 0), words)) + rest, pseudo))
  }

  lemma ChecksumAccepted(g: Segment, words: nat, rest: seq<byte>, pseudo: u32)
    requires 5 <= words < 16 && |rest| <= 0x1_0100 && pseudo < 0x10_0000
    requires g.cksum == ChecksumOver(g, words, rest, pseudo)
    ensures Acceptable(Encode(HeaderItems(g, words)) + rest, pseudo)
  {
    hide WordSum, Encode, Field, Fold;
    var zero := Encode(HeaderItems(g.(cksum := 0), words)) + rest;
    SumWithChecksum(g, words, rest);
    SegmentFields(g, words, rest);
    SegmentFields(g.(cksum := 0), words, rest);
    SumBound(zero, false);
    ChecksumVerifies(pseudo + WordSum(zero, false));
  }

  /** A segment that fits a datagram and carries its own checksum is accepted. */
  lemma OwnChecksumAccepted(g: Segment, pseudo: u32)
    requires |g.message.sender.payload| <= 0xffff && pseudo < 0x10_0000
    requires g.cksum == SegmentChecksum(g, pseudo)
    ensures Acceptable(SegmentBytes(g), pseudo)
  {
    hide TotalSum, HeaderItems, Acceptable;
    ChecksumAccepted(g, 5, g.message.sender.payload, pseudo);
  }

  /** Options are skipped: with its own checksum a segment with any options is accepted, and decodes to the same
      message as without them, with exactly its own payload. */
  lemma OptionsSkipped(g: Segment, options: seq<byte>, pseudo: u32)
    requires |options| % 4 == 0 && |options| <= 40
    requires |g.message.sender.payload| <= 0xffff && pseudo < 0x10_0000
    requires g.cksum == Complement(TotalSum(WithOptions(g.(cksum := 0), options), pseudo))
    ensures Acceptable(WithOptions(g, options), pseudo)
    ensures Decode(WithOptions(g, options)) == g.(message := Merged(g.message))
  {
    hide TotalSum, HeaderItems, Acceptable, Decode;
    ChecksumAccepted(g, 5 + |options| / 4, options + g.message.sender.payload, pseudo);
    OptionsRoundTrip(g, options);
  }

  /** The data offset, the high half of the thirteenth byte, decides where the payload starts: an offset below five
      words is never accepted, and one beyond the end leaves no payload. */
  lemma PayloadStartsAtOffset(bs: seq<byte>, pseudo: u32)
    requires |bs| >= 20
    ensures bs[12] as int / 16 < 5 ==> !Acceptable(bs, pseudo)
    ensures Acceptable(bs, pseudo) ==>
              var start := bs[12] as int / 16 * 4;
              Decode(bs).message.sender.payload == if start <= |bs| then bs[start..] else []
  {
    hide TotalSum, Fold, Field;
    FieldOfOne(bs, 12);
  }

  /** Changing any single byte of an accepted segment makes it unacceptable. */
  lemma CorruptSegmentRejected(bs: seq<byte>, pseudo: u32, i: nat, b: byte)
    requires |bs| <= 0xffff && pseudo < 0x10_0000 && Acceptable(bs, pseudo)
    requires i < |bs| && b != bs[i]
    ensures !Acceptable(bs[i := b], pseudo)
  {
    hide WordSum, Fold, Field;
    SumBound(bs, false);
    SumBound(bs[i := b], false);
    CorruptionDetected(bs, i, b, pseudo);
  }
}
