/** 32-bit sequence numbers and their absolute 64-bit counterparts (section 3.4 of RFC 9293). */
module Wrapping {
  import opened Numbers

  /** Position of absolute number n on the 32-bit circle that starts at zero. */
  function Wrap(n: nat, zero: u32): u32 {
    U32(zero + n % 0x1_0000_0000)
  }

  /** The signed 32-bit step that the code adds to the checkpoint. */
  function Offset(raw: u32, zero: u32, checkpoint: u64): int {
    var du := (raw - zero - checkpoint) % 0x1_0000_0000;
    if du < 0x8000_0000 then du else du - 0x1_0000_0000
  }

  /** Absolute number for raw, computed through int64_t as the code does. */
  function Unwrap(raw: u32, zero: u32, checkpoint: u64): u64 {
    var sum := (checkpoint + Offset(raw, zero, checkpoint)) % 0x1_0000_0000_0000_0000;
    var result := if sum < 0x8000_0000_0000_0000 then sum else sum - 0x1_0000_0000_0000_0000;
    if result >= 0 then result else (result + 0x1_0000_0000) % 0x1_0000_0000_0000_0000
  }

  lemma WrapZero(zero: u32)
    ensures Wrap(0, zero) == zero
  {
  }

  function Distance(a: int, b: int): nat {
    if a >= b then a - b else b - a
  }

  /** No absolute number with the same 32-bit image is nearer to the checkpoint than n. */
  ghost predicate Nearest(n: u64, zero: u32, checkpoint: u64) {
    forall m: u64 :: Wrap(m, zero) == Wrap(n, zero) ==> Distance(n, checkpoint) <= Distance(m, checkpoint)
  }

  /** The numbers whose image is raw are the ones raw - zero plus whole circles. */
  lemma ImageIff(n: nat, raw: u32, zero: u32)
    ensures Wrap(n, zero) == raw <==> (n - (raw - zero)) % 0x1_0000_0000 == 0
  {
    var q, r := n / 0x1_0000_0000, n % 0x1_0000_0000;
    assert n == q * 0x1_0000_0000 + r;
    var e := r - (raw - zero);
    assert -0x1_0000_0000 < e < 0x2_0000_0000;
    ModShift(e, q);
    assert n - (raw - zero) == e + q * 0x1_0000_0000;
    if e % 0x1_0000_0000 == 0 {
      assert e == 0 || e == 0x1_0000_0000;
    }
  }

  lemma ModShift(e: int, q: int)
    ensures (e + q * 0x1_0000_0000) % 0x1_0000_0000 == e % 0x1_0000_0000
  {
    var a, b := e / 0x1_0000_0000, e % 0x1_0000_0000;
    assert e + q * 0x1_0000_0000 == (a + q) * 0x1_0000_0000 + b;
  }

  /** The step is the residue of raw - zero - checkpoint that lies in [-2^31, 2^31). */
  lemma OffsetResidue(raw: u32, zero: u32, checkpoint: u64) returns (q: int)
    ensures raw - zero - checkpoint == Offset(raw, zero, checkpoint) + q * 0x1_0000_0000
    ensures -0x8000_0000 <= Offset(raw, zero, checkpoint) < 0x8000_0000
  {
    var x := raw - zero - checkpoint;
    q := if x % 0x1_0000_0000 < 0x8000_0000 then x / 0x1_0000_0000 else x / 0x1_0000_0000 + 1;
  }

  /** The value of unwrap by the size of checkpoint plus step. */
  lemma UnwrapCases(raw: u32, zero: u32, checkpoint: u64)
    ensures var t := checkpoint + Offset(raw, zero, checkpoint);
            Unwrap(raw, zero, checkpoint) ==
            if t < 0 then t + 0x1_0000_0000
            else if t < 0x8000_0000_0000_0000 then t
            else if t < 0xffff_ffff_0000_0000 then t + 0x1_0000_0000
            else if t < 0x1_0000_0000_0000_0000 then t + 0x1_0000_0000 - 0x1_0000_0000_0000_0000
            else t - 0x1_0000_0000_0000_0000
  {
    var q := OffsetResidue(raw, zero, checkpoint);
    var t := checkpoint + Offset(raw, zero, checkpoint);
    if t < 0 {
      assert t % 0x1_0000_0000_0000_0000 == t + 0x1_0000_0000_0000_0000;
    } else if t < 0x1_0000_0000_0000_0000 {
      assert t % 0x1_0000_0000_0000_0000 == t;
    } else {
      assert t % 0x1_0000_0000_0000_0000 == t - 0x1_0000_0000_0000_0000;
    }
  }

  /** Whatever the checkpoint, the result of unwrap wraps back to the number it was given. */
  lemma WrapUnwrap(raw: u32, zero: u32, checkpoint: u64)
    ensures Wrap(Unwrap(raw, zero, checkpoint), zero) == raw
  {
    UnwrapCases(raw, zero, checkpoint);
    var q := OffsetResidue(raw, zero, checkpoint);
    var t := checkpoint + Offset(raw, zero, checkpoint);
    var n := Unwrap(raw, zero, checkpoint);
    var k := if t < 0 then 1
             else if t < 0x8000_0000_0000_0000 then 0
             else if t < 0xffff_ffff_0000_0000 then 1
             else if t < 0x1_0000_0000_0000_0000 then 1 - 0x1_0000_0000
             else - 0x1_0000_0000;
    assert n == t + k * 0x1_0000_0000;
    ModShift(0, k - q);
    assert n - (raw - zero) == 0 + (k - q) * 0x1_0000_0000;
    ImageIff(n, raw, zero);
  }

  /** Two absolute numbers with one image lie a whole number of circles apart. */
  lemma SameImage(m: nat, n: nat, zero: u32)
    ensures Wrap(m, zero) == Wrap(n, zero) <==> (m - n) % 0x1_0000_0000 == 0
  {
    ImageIff(m, Wrap(n, zero), zero);
    ImageIff(n, Wrap(n, zero), zero);
    var a := n - (Wrap(n, zero) - zero);
    ModShift(m - n, a / 0x1_0000_0000);
    assert m - (Wrap(n, zero) - zero) == (m - n) + (a / 0x1_0000_0000) * 0x1_0000_0000;
  }

  /** Numbers of the first circle are told apart by their images. */
  lemma SameNumber(m: nat, n: nat, zero: u32)
    requires m < 0x1_0000_0000 && n < 0x1_0000_0000 && Wrap(m, zero) == Wrap(n, zero)
    ensures m == n
  {
    SameImage(m, n, zero);
  }

  /** The number before n has the image before that of n. */
  lemma WrapBefore(x: u32, n: nat, zero: u32)
    requires n > 0
    ensures U32(x + 1) == Wrap(n, zero) <==> x == Wrap(n - 1, zero)
  {
    ImageIff(n - 1, x, zero);
    ImageIff(n, U32(x + 1), zero);
    ModShift(n - 1 - (x - zero), 1);
    hide Wrap;
  }

  /** Exactly when unwrap finds the nearest number: when checkpoint plus step stays below 2^63,
      or in the one tie where the number a whole circle further on is equally near. */
  lemma UnwrapNearest(raw: u32, zero: u32, checkpoint: u64)
    ensures var t := checkpoint + Offset(raw, zero, checkpoint);
            Nearest(Unwrap(raw, zero, checkpoint), zero, checkpoint)
            <==> t < 0x8000_0000_0000_0000
                 || (Offset(raw, zero, checkpoint) == -0x8000_0000 && t < 0xffff_ffff_0000_0000)
  {
    var q := OffsetResidue(raw, zero, checkpoint);
    UnwrapCases(raw, zero, checkpoint);
    var d := Offset(raw, zero, checkpoint);
    var n := Unwrap(raw, zero, checkpoint);
    hide Wrap, Unwrap, Offset, Nearest, Distance;
    if checkpoint + d < 0x8000_0000_0000_0000 || (d == -0x8000_0000 && checkpoint + d < 0xffff_ffff_0000_0000) {
      NearInside(n, d, zero, checkpoint);
    } else {
      NearMissed(n, d, zero, checkpoint);
    }
  }

  /** Two different numbers with one image are at least a whole circle apart. */
  lemma ImagesApart(m: nat, n: nat, zero: u32)
    requires Wrap(m, zero) == Wrap(n, zero)
    ensures m == n || m <= n - 0x1_0000_0000 || m >= n + 0x1_0000_0000
  {
    SameImage(m, n, zero);
    hide Wrap;
    var j := (m - n) / 0x1_0000_0000;
    assert m == n + j * 0x1_0000_0000;
  }

  lemma NearInside(n: u64, d: int, zero: u32, checkpoint: u64)
    requires -0x8000_0000 <= d < 0x8000_0000
    requires var t := checkpoint + d;
             && n == (if 0 <= t < 0x8000_0000_0000_0000 then t else t + 0x1_0000_0000)
             && (t < 0x8000_0000_0000_0000 || d == -0x8000_0000)
    ensures Nearest(n, zero, checkpoint)
  {
    forall m: u64 | Wrap(m, zero) == Wrap(n, zero)
      ensures Distance(n, checkpoint) <= Distance(m, checkpoint)
    {
      ImagesApart(m, n, zero);
      hide Wrap;
    }
  }

  lemma NearMissed(n: u64, d: int, zero: u32, checkpoint: u64)
    requires -0x8000_0000 <= d < 0x8000_0000
    requires var t := checkpoint + d;
             && t >= 0x8000_0000_0000_0000 && (d == -0x8000_0000 ==> t >= 0xffff_ffff_0000_0000)
             && n == (if t < 0xffff_ffff_0000_0000 then t + 0x1_0000_0000
                      else if t < 0x1_0000_0000_0000_0000 then t + 0x1_0000_0000 - 0x1_0000_0000_0000_0000
                      else t - 0x1_0000_0000_0000_0000)
    ensures !Nearest(n, zero, checkpoint)
  {
    var t := checkpoint + d;
    var m: u64 := if t < 0x1_0000_0000_0000_0000 then t else t - 0x1_0000_0000;
    var j: int := if t < 0xffff_ffff_0000_0000 then -1 else 0xffff_ffff;
    assert m == n + j * 0x1_0000_0000;
    ModShift(0, j);
    assert (m - n) % 0x1_0000_0000 == 0;
    SameImage(m, n, zero);
    hide Wrap;
    assert Distance(m, checkpoint) < Distance(n, checkpoint);
  }

  /** At checkpoint 2^63 the number zero itself is unwrapped to one a whole circle beyond the checkpoint, which is
      an image of it too. */
  lemma UnwrapMissesNearest(zero: u32)
    ensures Unwrap(zero, zero, 0x8000_0000_0000_0000) == 0x8000_0001_0000_0000
    ensures !Nearest(Unwrap(zero, zero, 0x8000_0000_0000_0000), zero, 0x8000_0000_0000_0000)
  {
    assert Offset(zero, zero, 0x8000_0000_0000_0000) == 0;
    UnwrapCases(zero, zero, 0x8000_0000_0000_0000);
    UnwrapNearest(zero, zero, 0x8000_0000_0000_0000);
  }

  /** unwrap inverts wrap exactly for numbers within half a circle of the checkpoint, and for numbers
      of the first circle that lie further above it. */
  lemma UnwrapWrap(n: u64, zero: u32, checkpoint: u64)
    requires n < 0x8000_0000_0000_0000 && checkpoint < 0x8000_0000_0000_0000
    ensures Unwrap(Wrap(n, zero), zero, checkpoint) == n
            <==> -0x8000_0000 <= n - checkpoint < 0x8000_0000 || (n < 0x1_0000_0000 && 0x8000_0000 <= n - checkpoint)
  {
    var raw := Wrap(n, zero);
    var q := OffsetResidue(raw, zero, checkpoint);
    UnwrapCases(raw, zero, checkpoint);
    ImageIff(n, raw, zero);
    hide Wrap, Unwrap, Offset;
    var j := (n - (raw - zero)) / 0x1_0000_0000;
    assert n == raw - zero + j * 0x1_0000_0000;
    assert n == checkpoint + Offset(raw, zero, checkpoint) + (q + j) * 0x1_0000_0000;
  }
}
