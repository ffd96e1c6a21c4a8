/** Which IPv4 headers are accepted, byte by byte: what reading and writing back does, and where this departs from the
    standard's checksum (section 3.1 of RFC 791, RFC 1071). */
module HeaderAcceptance {
  import opened Numbers
  import opened Bytes
  import opened Frames
  import opened Checksum
  import IP = IPv4Model

  /** The first twenty bytes with the reserved bit, the highest of the fragment word, cleared. */
  function Fixed(bs: seq<byte>): (r: seq<byte>)
    requires |bs| >= 20
    ensures |r| == 20
  {
    bs[..20][6 := (bs[6] as int % 128) as byte]
  }

  /** A field of the encoded header that is what was read from its place is the bytes there. */
  lemma ItemIsBytes(w: seq<Item>, k: nat, i: nat, bs: seq<byte>)
    requires k < |w| && i + w[k].width <= |bs|
    requires Encode(w[..k]) == bs[..i] && w[k].value == Field(bs, i, w[k].width)
    ensures Encode(w[..k + 1]) == bs[..i + w[k].width]
  {
    hide Encode, ToBytes, Width;
    WidthStep(w, k);
    var n := w[k].width;
    NumberRoundTrip(bs[i..i + n]);
    assert |bs[i..i + n]| == n;
    assert bs[..i + n] == bs[..i] + bs[i..i + n];
  }

  lemma FlagsAndOffset(x: u16)
    ensures (if x / 0x4000 % 2 == 1 then 0x4000 else 0) + (if x / 0x2000 % 2 == 1 then 0x2000 else 0)
            + x % 0x2000 % 0x2000
         == x % 0x8000
  {
  }

  lemma TwoBytes(bs: seq<byte>, i: nat)
    requires i + 2 <= |bs|
    ensures Field(bs, i, 2) == bs[i] as int * 256 + bs[i + 1] as int
  {
    FieldJoin(bs, i, 1, 1);
    FieldOfOne(bs, i);
    FieldOfOne(bs, i + 1);
    Pow256Values();
    hide Field;
  }

  lemma ReadFragment(bs: seq<byte>)
    requires |bs| >= 20 && Field(bs, 6, 2) < 0x1_0000
    ensures IP.FragmentWord(IP.Decode(bs)) == Field(bs, 6, 2) % 0x8000
  {
    hide Field;
    FlagsAndOffset(Field(bs, 6, 2));
  }

  lemma HighBit(a: byte, b: byte)
    ensures (a as int * 256 + b as int) % 0x8000 == a as int % 128 * 256 + b as int
  {
  }

  /** The fragment word of the header that is read is the two bytes without the reserved bit. */
  lemma FragmentIs(bs: seq<byte>)
    requires |bs| >= 20
    ensures IP.FragmentWord(IP.Decode(bs)) == Field(Fixed(bs), 6, 2)
  {
    TwoBytes(bs, 6);
    TwoBytes(Fixed(bs), 6);
    HighBit(bs[6], bs[7]);
    ReadFragment(bs);
    hide Field, IP.FragmentWord, IP.Decode;
    assert Fixed(bs)[6] as int == bs[6] as int % 128 && Fixed(bs)[7] == bs[7];
  }

  lemma SameField(bs: seq<byte>, i: nat, n: nat)
    requires |bs| >= 20 && i + n <= 20 && !(i <= 6 < i + n)
    ensures Field(Fixed(bs), i, n) == Field(bs, i, n)
  {
    assert Fixed(bs)[i..i + n] == bs[i..i + n];
  }

  /** What is written is what was read, item by item. */
  lemma ItemsRead(bs: seq<byte>)
    requires |bs| >= 20
    ensures var w, f := IP.HeaderItems(IP.Decode(bs)), Fixed(bs);
            w == [Item(Field(f, 0, 1), 1), Item(Field(f, 1, 1), 1), Item(Field(f, 2, 2), 2), Item(Field(f, 4, 2), 2),
                  Item(Field(f, 6, 2), 2), Item(Field(f, 8, 1), 1), Item(Field(f, 9, 1), 1), Item(Field(f, 10, 2), 2),
                  Item(Field(f, 12, 4), 4), Item(Field(f, 16, 4), 4)]
  {
    SameField(bs, 0, 1); SameField(bs, 1, 1); SameField(bs, 2, 2); SameField(bs, 4, 2); SameField(bs, 8, 1);
    SameField(bs, 9, 1); SameField(bs, 10, 2); SameField(bs, 12, 4); SameField(bs, 16, 4);
    FragmentIs(bs);
    FirstByteRead(bs);
    hide Field, IP.FirstByte, IP.FragmentWord, Fixed;
  }

  lemma FirstByteRead(bs: seq<byte>)
    requires |bs| >= 20
    ensures IP.FirstByte(IP.Decode(bs)) == Field(bs, 0, 1)
  {
    FieldBound(bs, 0, 1);
    Pow256Values();
    hide Field;
  }

  /** Writing the header that was read gives back the bytes, but for the reserved bit. */
  lemma ReadThenWritten(bs: seq<byte>)
    requires |bs| >= 20
    ensures IP.HeaderBytes(IP.Decode(bs)) == Fixed(bs)
  {
    hide Field, Encode, IP.HeaderItems, IP.Decode, Fixed;
    var w, f := IP.HeaderItems(IP.Decode(bs)), Fixed(bs);
    ItemsRead(bs);
    EncodeNone(w);
    ItemIsBytes(w, 0, 0, f); ItemIsBytes(w, 1, 1, f); ItemIsBytes(w, 2, 2, f); ItemIsBytes(w, 3, 4, f);
    ItemIsBytes(w, 4, 6, f); ItemIsBytes(w, 5, 8, f); ItemIsBytes(w, 6, 9, f); ItemIsBytes(w, 7, 10, f);
    ItemIsBytes(w, 8, 12, f); ItemIsBytes(w, 9, 16, f);
    assert w[..10] == w && f[..20] == f;
  }

  // ----- acceptance -----

  /** What a header has to be, byte by byte: version 4, at least five words long, and its twenty bytes, the reserved
      bit aside, sum to what verifies. A checksum of 0xffff would verify too but is never computed, and so not
      accepted. */
  lemma AcceptableIff(bs: seq<byte>)
    requires |bs| >= 20
    ensures IP.Acceptable(bs) <==>
              && bs[0] as int / 16 == 4 && bs[0] as int % 16 >= 5
              && Complement(WordSum(Fixed(bs), false)) == 0 && Field(bs, 10, 2) != 0xffff
  {
    var h := IP.Decode(bs);
    ReadThenWritten(bs);
    FieldOfOne(bs, 0);
    assert h.cksum == Field(bs, 10, 2) && h.ver == bs[0] as int / 16 && h.hlen == bs[0] as int % 16;
    hide Field, Fixed, IP.HeaderBytes, IP.Decode;
    if h.ver == 4 {
      ChecksumIff(h);
    }
  }

  lemma ChecksumIff(h: IPv4Header)
    requires h.ver == 4
    ensures h.cksum == IP.HeaderChecksum(h)
            <==> Complement(WordSum(IP.HeaderBytes(h), false)) == 0 && h.cksum != 0xffff
  {
    hide WordSum, IP.HeaderBytes, Fold;
    IP.HeaderSum(h);
    PositiveSum(h.(cksum := 0));
    IP.HeaderOffsets(h.(cksum := 0));
    var zero := IP.HeaderBytes(h.(cksum := 0));
    SumBound(zero, false);
    OnlyOneVerifies(WordSum(zero, false), h.cksum);
  }

  /** Of the sixteen-bit numbers one makes a positive sum verify, or two, of which the other is 0xffff. */
  lemma OnlyOneVerifies(x: nat, c: u16)
    requires x > 0
    ensures c == Complement(x) <==> Complement(x + c) == 0 && c != 0xffff
  {
    FoldIs(x);
    ChecksumVerifies(x);
    VerifiesIff(x + c);
    VerifiesIff(x + Complement(x));
    MultiplesApart(x + c, x + Complement(x));
    hide Complement;
  }

  lemma PositiveSum(h: IPv4Header)
    requires h.ver == 4
    ensures WordSum(IP.HeaderBytes(h), false) > 0
  {
    hide ToBytes, WordSum;
    IP.HeaderOffsets(h);
    var bs := IP.HeaderBytes(h);
    assert bs[0] as int >= 64 by {
      hide IP.HeaderBytes;
      FirstByteIs(h);
    }
    SumOfFirst(bs);
  }

  lemma FirstByteIs(h: IPv4Header)
    requires h.ver == 4
    ensures |IP.HeaderBytes(h)| == 20 && IP.HeaderBytes(h)[0] as int == 64 + h.hlen % 16
  {
    hide Encode, Field, Width, ToBytes;
    var w := IP.HeaderItems(h);
    Pow256Values();
    IP.HeaderOffsets(h);
    assert IP.HeaderBytes(h) + [] == IP.HeaderBytes(h);
    FieldAt(w, 0, 0, []);
    FieldOfOne(IP.HeaderBytes(h), 0);
  }

  lemma SumOfFirst(bs: seq<byte>)
    requires bs != []
    ensures WordSum(bs, false) >= bs[0] as int * 256
  {
  }

  lemma WordSumOfTwo(bs: seq<byte>)
    requires |bs| == 2
    ensures WordSum(bs, false) == FromBytes(bs) < 0x1_0000
  {
    NumberRoundTrip(bs);
    TwoByteSum(FromBytes(bs));
    FromBytesBound(bs);
    Pow256Values();
    hide WordSum, FromBytes, ToBytes;
  }

  lemma WordSumOfFour(bs: seq<byte>)
    requires |bs| == 4
    ensures WordSum(bs, false) == FromBytes(bs) / 0x1_0000 + FromBytes(bs) % 0x1_0000
  {
    hide WordSum, FromBytes;
    var hi, lo := bs[..2], bs[2..];
    assert bs == hi + lo;
    FromBytesJoin(hi, lo);
    SumSplits(hi, lo, false);
    WordSumOfTwo(hi);
    WordSumOfTwo(lo);
    Pow256Values();
  }

  /** The two halves of a 32-bit word, added. */
  function Halves(x: nat): nat {
    x / 0x1_0000 + x % 0x1_0000
  }

  lemma WordSumOfTwenty(bs: seq<byte>)
    requires |bs| == 20
    ensures WordSum(bs, false) == Halves(Field(bs, 0, 4)) + Halves(Field(bs, 4, 4)) + Halves(Field(bs, 8, 4))
                                  + Halves(Field(bs, 12, 4)) + Halves(Field(bs, 16, 4))
  {
    hide WordSum, FromBytes;
    var a, b, c, d, e := bs[0..4], bs[4..8], bs[8..12], bs[12..16], bs[16..20];
    assert bs == a + (b + (c + (d + e)));
    SumSplits(a, b + (c + (d + e)), false);
    SumSplits(b, c + (d + e), false);
    SumSplits(c, d + e, false);
    SumSplits(d, e, false);
    WordSumOfFour(a); WordSumOfFour(b); WordSumOfFour(c); WordSumOfFour(d); WordSumOfFour(e);
  }

  /** A header without data whose other words add up to 0xffff. */
  function AllOnes(cksum: u16): IPv4Header {
    IPv4Header(4, 5, 0, 20, 0x7ae5, false, false, 0, 64, 6, cksum, 0, 0)
  }

  lemma AllOnesSum(cksum: u16)
    ensures |IP.HeaderBytes(AllOnes(cksum))| == 20
    ensures WordSum(IP.HeaderBytes(AllOnes(cksum)), false) == 0xffff + cksum
  {
    hide WordSum, Field, IP.HeaderBytes;
    IP.HeaderWords(AllOnes(cksum));
    WordSumOfTwenty(IP.HeaderBytes(AllOnes(cksum)));
  }

  /** The standard's checksum of it is zero, and is accepted; all ones verifies as well, and is refused. */
  lemma AllOnesRefused()
    ensures IP.Acceptable(IP.HeaderBytes(AllOnes(0)))
    ensures Complement(WordSum(IP.HeaderBytes(AllOnes(0xffff)), false)) == 0
    ensures !IP.Acceptable(IP.HeaderBytes(AllOnes(0xffff)))
  {
    hide WordSum, IP.HeaderBytes, IP.Decode, Fold;
    AllOnesSum(0);
    AllOnesSum(0xffff);
    FoldIs(0xffff);
    FoldIs(0x1_fffe);
    ChecksumIff(AllOnes(0));
    ChecksumIff(AllOnes(0xffff));
    IP.HeaderAccepted(AllOnes(0), []);
    IP.HeaderRoundTrip(AllOnes(0xffff), []);
    assert IP.HeaderBytes(AllOnes(0)) + [] == IP.HeaderBytes(AllOnes(0));
    assert IP.HeaderBytes(AllOnes(0xffff)) + [] == IP.HeaderBytes(AllOnes(0xffff));
  }

  /** The standard sums the options as well. A header with options that verifies by the standard is accepted only if
      the options alone add nothing. */
  lemma StandardChecksumIff(h: IPv4Header, options: seq<byte>, rest: seq<byte>)
    requires IP.WellFormed(h) && h.hlen == 5 + |options| / 4 && |options| % 4 == 0
    requires Complement(WordSum(IP.HeaderBytes(h) + options, false)) == 0 && h.cksum != 0xffff
    ensures IP.Acceptable(IP.HeaderBytes(h) + (options + rest)) <==> WordSum(options, false) % 0xffff == 0
  {
    hide IP.HeaderBytes, IP.Decode, IP.HeaderChecksum, WordSum, Complement;
    IP.HeaderRoundTrip(h, options + rest);
    SumSplits(IP.HeaderBytes(h), options, false);
    VerifiesIff(WordSum(IP.HeaderBytes(h) + options, false));
    VerifiesIff(WordSum(IP.HeaderBytes(h), false));
    PositiveSum(h);
    RemainderOfSum(WordSum(IP.HeaderBytes(h), false), WordSum(options, false));
    ChecksumIff(h);
  }

  lemma RemainderOfSum(x: nat, y: nat)
    requires (x + y) % 0xffff == 0
    ensures x % 0xffff == 0 <==> y % 0xffff == 0
  {
    var a, b := x / 0xffff, y / 0xffff;
    assert x + y == (a + b) * 0xffff + (x % 0xffff + y % 0xffff);
    ModPlus(x % 0xffff + y % 0xffff, a + b);
  }

  /** A header with one word of options, four no-operations, and the standard's checksum. */
  function FourNops(): IPv4Header {
    IPv4Header(4, 6, 0, 24, 0x77df, false, false, 0, 64, 6, 0, 0, 0)
  }

  lemma FourNopsSum()
    ensures |IP.HeaderBytes(FourNops())| == 20 && WordSum(IP.HeaderBytes(FourNops()), false) == 0xfdfd
  {
    hide WordSum, Field, IP.HeaderBytes;
    IP.HeaderWords(FourNops());
    WordSumOfTwenty(IP.HeaderBytes(FourNops()));
  }

  lemma OptionsRefused()
    ensures Complement(WordSum(IP.HeaderBytes(FourNops()) + [1, 1, 1, 1], false)) == 0
    ensures !IP.Acceptable(IP.HeaderBytes(FourNops()) + [1, 1, 1, 1])
  {
    hide WordSum, Field, IP.HeaderBytes, Fold, IP.Acceptable, IP.Decode;
    var bs, nops: seq<byte> := IP.HeaderBytes(FourNops()), [1, 1, 1, 1];
    NopsSum();
    FourNopsSum();
    SumSplits(bs, nops, false);
    FoldIs(0xffff);
    assert nops + [] == nops;
    StandardChecksumIff(FourNops(), nops, []);
  }

  lemma NopsSum()
    ensures WordSum([1, 1, 1, 1], false) == 0x202
  {
    assert [1 as byte, 1, 1, 1] == [1, 1] + [1, 1];
    SumSplits([1, 1], [1, 1], false);
    assert WordSum([1, 1], false) == 256 + WordSum([1], true) && WordSum([1], true) == 1 + WordSum([], false);
  }
}
