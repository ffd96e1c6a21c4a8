/** The Internet checksum (RFC 1071). */
module Checksum {
  import opened Numbers
  import opened Bytes

  /** Sum of the 16-bit words of data; with `odd` the first byte is the low half of a word already begun. */
  function WordSum(data: seq<byte>, odd: bool): nat {
    if data == [] then 0
    else (if odd then data[0] as int else data[0] as int * 256) + WordSum(data[1..], !odd)
  }

  function Parity(odd: bool, n: nat): bool {
    if n % 2 == 0 then odd else !odd
  }

  /** The sum does not depend on how the data is split into pieces. */
  lemma {:induction false} SumSplits(a: seq<byte>, b: seq<byte>, odd: bool)
    ensures WordSum(a + b, odd) == WordSum(a, odd) + WordSum(b, Parity(odd, |a|))
  {
    if a == [] {
      assert a + b == b;
    } else {
      SumSplits(a[1..], b, !odd);
      assert (a + b)[1..] == a[1..] + b;
    }
  }

  /** Add the carries back in until 16 bits are left. */
  function Fold(x: nat): nat {
    if x > 0xffff then Fold(x / 0x1_0000 + x % 0x1_0000) else x
  }

  function Complement(x: nat): u16 {
    FoldIs(x);
    0xffff - Fold(x)
  }

  /** Folding computes the remainder modulo 65535, written as 1 to 65535 except for zero itself. */
  lemma {:induction false} FoldIs(x: nat)
    ensures Fold(x) == if x == 0 then 0 else (x - 1) % 0xffff + 1
  {
    if x > 0xffff {
      var y := x / 0x1_0000 + x % 0x1_0000;
      assert x - 1 == (y - 1) + (x / 0x1_0000) * 0xffff;
      FoldIs(y);
      ModPlus(y - 1, x / 0x1_0000);
    }
  }

  lemma ModPlus(a: nat, k: nat)
    ensures (a + k * 0xffff) % 0xffff == a % 0xffff
  {
    var q, r := a / 0xffff, a % 0xffff;
    assert a + k * 0xffff == (q + k) * 0xffff + r;
  }

  /** Data summed together with its own checksum verifies: the complement of the total is zero. */
  lemma ChecksumVerifies(x: nat)
    ensures Complement(x + Complement(x)) == 0
  {
    FoldIs(x);
    FoldIs(x + Complement(x));
    if x > 0 {
      var q := (x - 1) / 0xffff;
      assert x + Complement(x) - 1 == 0xfffe + q * 0xffff;
      ModPlus(0xfffe, q);
    }
  }

  /** A total verifies exactly when it is a positive multiple of 65535. */
  lemma VerifiesIff(x: nat)
    ensures Complement(x) == 0 <==> x > 0 && x % 0xffff == 0
  {
    FoldIs(x);
    if x > 0 {
      var q, r := (x - 1) / 0xffff, (x - 1) % 0xffff;
      assert x == q * 0xffff + (r + 1);
      ModPlus(r + 1, q);
    }
  }

  lemma {:induction false} SumOfChange(a: seq<byte>, i: nat, b: byte, odd: bool)
    requires i < |a|
    ensures WordSum(a[i := b], odd) - WordSum(a, odd)
            == (b as int - a[i] as int) * (if Parity(odd, i) then 1 else 256)
  {
    if i > 0 {
      SumOfChange(a[1..], i - 1, b, !odd);
      assert a[i := b][1..] == a[1..][i - 1 := b];
    } else {
      assert a[0 := b][1..] == a[1..];
    }
  }

  /** Data that verifies no longer does once any single byte of it is changed. */
  lemma CorruptionDetected(a: seq<byte>, i: nat, b: byte, initial: nat)
    requires i < |a| && b != a[i]
    requires Complement(initial + WordSum(a, false)) == 0
    ensures Complement(initial + WordSum(a[i := b], false)) != 0
  {
    SumOfChange(a, i, b, false);
    var x, y := initial + WordSum(a, false), initial + WordSum(a[i := b], false);
    VerifiesIff(x);
    VerifiesIff(y);
    MultiplesApart(x, y);
    hide WordSum, Complement;
  }

  lemma MultiplesApart(x: nat, y: nat)
    ensures x % 0xffff == 0 && y % 0xffff == 0 && -0xffff < y - x < 0xffff ==> x == y
  {
    var a, b := x / 0xffff, y / 0xffff;
    assert x == a * 0xffff + x % 0xffff && y == b * 0xffff + y % 0xffff;
  }

  lemma {:induction false} SumBound(data: seq<byte>, odd: bool)
    ensures WordSum(data, odd) <= 0xff00 * ((|data| + (if odd then 0 else 1)) / 2)
                                  + 0xff * ((|data| + (if odd then 1 else 0)) / 2)
  {
    if data != [] {
      SumBound(data[1..], !odd);
      var n := |data|;
      assert (n - 1) / 2 + 1 == (n + 1) / 2 && (n - 1 + 1) / 2 == n / 2;
      var first, rest := data[0] as int, WordSum(data[1..], !odd);
      assert WordSum(data, odd) == (if odd then first else first * 256) + rest;
      hide WordSum;
      if odd {
        assert rest <= 0xff00 * (n / 2) + 0xff * ((n - 1) / 2);
      } else {
        assert rest <= 0xff00 * ((n - 1) / 2) + 0xff * (n / 2);
      }
    }
  }

  lemma TwoByteSum(v: nat)
    ensures WordSum(ToBytes(v, 2), false) == v % 0x1_0000
  {
    var hi, lo := (v / 256 % 256) as byte, (v % 256) as byte;
    assert ToBytes(v / 256, 1) == ToBytes(v / 256 / 256, 0) + [hi] == [hi];
    assert ToBytes(v, 2) == [hi] + [lo] == [hi, lo];
    assert [hi, lo][1..] == [lo] && [lo][1..] == [];
    assert WordSum([lo], true) == lo as int;
  }

  lemma WordSumStep(data: seq<byte>, i: nat, parity: bool)
    requires i < |data|
    ensures WordSum(data[i..], parity)
         == (if parity then data[i] as int else data[i] as int * 256) + WordSum(data[i + 1..], !parity)
  {
    assert data[i..][1..] == data[i + 1..];
  }

  class InternetChecksum {
    var sum: u32
    var parity: bool

    constructor (initial: u32)
      ensures sum == initial && !parity
    {
      sum, parity := initial, false;
    }

    method Add(data: seq<byte>)
      modifies this
      ensures sum == U32(old(sum) + WordSum(data, old(parity))) && parity == Parity(old(parity), |data|)
    {
      for i := 0 to |data|
        invariant U32(sum + WordSum(data[i..], parity)) == U32(old(sum) + WordSum(data, old(parity)))
        invariant parity == Parity(old(parity), i)
      {
        var val := data[i] as int;
        if !parity {
          val := val * 256;
        }
        WordSumStep(data, i, parity);
        AddWraps(sum, val, WordSum(data[i + 1..], !parity));
        hide WordSum, U32;
        sum := U32(sum + val);
        parity := !parity;
      }
      assert data[|data|..] == [];
    }

    method AddChunks(data: seq<seq<byte>>)
      modifies this
      ensures sum == U32(old(sum) + WordSum(Flatten(data), old(parity)))
      ensures parity == Parity(old(parity), |Flatten(data)|)
    {
      hide WordSum;
      for i := 0 to |data|
        invariant U32(sum + WordSum(Flatten(data[i..]), parity)) == U32(old(sum) + WordSum(Flatten(data), old(parity)))
        invariant Parity(parity, |Flatten(data[i..])|) == Parity(old(parity), |Flatten(data)|)
      {
        assert data[i..][1..] == data[i + 1..];
        SumSplits(data[i], Flatten(data[i + 1..]), parity);
        AddWraps(sum, WordSum(data[i], parity), WordSum(Flatten(data[i + 1..]), Parity(parity, |data[i]|)));
        Add(data[i]);
      }
      assert data[|data|..] == [];
      SumOfNothing(parity);
    }

    method Value() returns (v: u16)
      ensures v == Complement(sum)
    {
      var ret: nat := sum;
      while ret > 0xffff
        invariant Fold(ret) == Fold(sum)
        decreases ret
      {
        ret := ret / 0x1_0000 + ret % 0x1_0000;
      }
      v := 0xffff - ret;
    }
  }

  lemma SumOfNothing(odd: bool)
    ensures WordSum([], odd) == 0
  {
  }

  lemma AddWraps(sum: u32, a: nat, b: nat)
    ensures U32(U32(sum + a) + b) == U32(sum + (a + b))
  {
    var q, r := (sum + a) / 0x1_0000_0000, (sum + a) % 0x1_0000_0000;
    var q', r' := (r + b) / 0x1_0000_0000, (r + b) % 0x1_0000_0000;
    assert sum + (a + b) == (q + q') * 0x1_0000_0000 + r';
  }
}
