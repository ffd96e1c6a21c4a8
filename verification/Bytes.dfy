/** Chunked byte strings and big-endian integers. */
module Bytes {
  import opened Numbers

  lemma ConcatAssoc<T>(a: seq<T>, b: seq<T>, c: seq<T>)
    ensures (a + b) + c == a + (b + c)
  {
  }

  /** Two steps of conservation make one. */
  lemma ConcatChain<T>(a: seq<T>, b: seq<T>, c: seq<T>, d: seq<T>, e: seq<T>, f: seq<T>, g: seq<T>)
    requires a + b == d + e && e + c == f + g
    ensures a + (b + c) == (d + f) + g
  {
    ConcatAssoc(a, b, c);
    ConcatAssoc(d, e, c);
    ConcatAssoc(d, f, g);
  }

  function Flatten(chunks: seq<seq<byte>>): seq<byte> {
    if chunks == [] then [] else chunks[0] + Flatten(chunks[1..])
  }

  lemma {:induction false} FlattenAppend(a: seq<seq<byte>>, b: seq<seq<byte>>)
    ensures Flatten(a + b) == Flatten(a) + Flatten(b)
  {
    if a == [] {
      assert a + b == b;
    } else {
      FlattenAppend(a[1..], b);
      assert (a + b)[1..] == a[1..] + b;
      ConcatAssoc(a[0], Flatten(a[1..]), Flatten(b));
    }
  }

  lemma FlattenOne(c: seq<byte>)
    ensures Flatten([c]) == c
  {
    assert [c][1..] == [];
  }

  /** No chunk is empty. */
  predicate Solid(chunks: seq<seq<byte>>) {
    forall i :: 0 <= i < |chunks| ==> chunks[i] != []
  }

  /** No empty chunk comes before one that is not empty. */
  predicate EmptyLast(chunks: seq<seq<byte>>) {
    forall i, j :: 0 <= i < j < |chunks| && chunks[i] == [] ==> chunks[j] == []
  }

  /** Then the first chunk is not empty if there is anything at all. */
  lemma {:induction false} FirstNotEmpty(chunks: seq<seq<byte>>)
    requires EmptyLast(chunks) && Flatten(chunks) != []
    ensures chunks != [] && chunks[0] != []
  {
    if chunks != [] && chunks[0] == [] {
      forall i, j | 0 <= i < j < |chunks[1..]| && chunks[1..][i] == []
        ensures chunks[1..][j] == []
      {
        assert chunks[i + 1] == [];
      }
      FirstNotEmpty(chunks[1..]);
    }
  }

  /** The n low-order bytes of v, most significant first. */
  function ToBytes(v: nat, n: nat): (bs: seq<byte>)
    ensures |bs| == n
  {
    if n == 0 then [] else ToBytes(v / 256, n - 1) + [(v % 256) as byte]
  }

  /** The number that bytes spell, most significant first. */
  function FromBytes(bs: seq<byte>): nat {
    if bs == [] then 0 else FromBytes(bs[..|bs| - 1]) * 256 + bs[|bs| - 1] as int
  }

  function Pow256(n: nat): nat {
    if n == 0 then 1 else 256 * Pow256(n - 1)
  }

  lemma {:induction false} Pow256Positive(n: nat)
    ensures Pow256(n) > 0
  {
    if n > 0 {
      Pow256Positive(n - 1);
    }
  }

  /** Writing a number in n bytes and reading it back loses nothing if it fits. */
  lemma {:induction false} BytesRoundTrip(v: nat, n: nat)
    requires v < Pow256(n)
    ensures FromBytes(ToBytes(v, n)) == v
  {
    if n > 0 {
      BytesRoundTrip(v / 256, n - 1);
      assert ToBytes(v, n)[..n - 1] == ToBytes(v / 256, n - 1);
    }
  }

  /** v >> (8 * k) */
  function ShiftRight(v: nat, k: nat): nat {
    if k == 0 then v else ShiftRight(v / 256, k - 1)
  }

  /** The byte at position i is the low byte of v shifted right by the bytes behind it. */
  lemma {:induction false} ByteAt(v: nat, n: nat, i: nat)
    requires i < n
    ensures ToBytes(v, n)[i] as int == ShiftRight(v, n - 1 - i) % 256
  {
    if i < n - 1 {
      ByteAt(v / 256, n - 1, i);
    }
  }

  // ----- fixed layouts -----

  /** A number and how many bytes it takes on the wire. */
  datatype Item = Item(value: nat, width: nat)

  function Encode(items: seq<Item>): seq<byte> {
    if items == [] then [] else ToBytes(items[0].value, items[0].width) + Encode(items[1..])
  }

  function Width(items: seq<Item>): nat {
    if items == [] then 0 else items[0].width + Width(items[1..])
  }

  lemma {:induction false} EncodeLength(items: seq<Item>)
    ensures |Encode(items)| == Width(items)
  {
    if items != [] {
      EncodeLength(items[1..]);
    }
  }

  lemma {:induction false} EncodeSplit(a: seq<Item>, b: seq<Item>)
    ensures Encode(a + b) == Encode(a) + Encode(b)
    ensures Width(a + b) == Width(a) + Width(b)
  {
    hide ToBytes;
    if a == [] {
      assert a + b == b;
    } else {
      EncodeSplit(a[1..], b);
      assert (a + b)[1..] == a[1..] + b;
      ConcatAssoc(ToBytes(a[0].value, a[0].width), Encode(a[1..]), Encode(b));
    }
  }

  lemma EncodeOne(x: Item)
    ensures Encode([x]) == ToBytes(x.value, x.width) && Width([x]) == x.width
  {
    assert [x][1..] == [];
  }

  /** The big-endian number in bytes [i, i + n). */
  function Field(bs: seq<byte>, i: nat, n: nat): nat
    requires i + n <= |bs|
  {
    FromBytes(bs[i..i + n])
  }

  lemma {:induction false} FromBytesBound(bs: seq<byte>)
    ensures FromBytes(bs) < Pow256(|bs|)
  {
    if bs != [] {
      FromBytesBound(bs[..|bs| - 1]);
    }
  }

  lemma FieldBound(bs: seq<byte>, i: nat, n: nat)
    requires i + n <= |bs|
    ensures Field(bs, i, n) < Pow256(n)
  {
    FromBytesBound(bs[i..i + n]);
  }

  lemma Pow256Values()
    ensures Pow256(1) == 0x100 && Pow256(2) == 0x1_0000 && Pow256(4) == 0x1_0000_0000
  {
    assert Pow256(3) == 0x100_0000;
  }

  /** An item that fits its width is read back from its place, whatever surrounds it. */
  lemma FieldOfItem(before: seq<Item>, x: Item, after: seq<Item>, rest: seq<byte>)
    requires x.value < Pow256(x.width)
    ensures var bs := Encode(before + [x] + after) + rest;
            Width(before) + x.width <= |bs| && Field(bs, Width(before), x.width) == x.value
  {
    hide Encode, ToBytes, Width, FromBytes;
    var bs := Encode(before + [x] + after) + rest;
    EncodeSplit(before + [x], after);
    EncodeSplit(before, [x]);
    EncodeOne(x);
    EncodeLength(before);
    assert bs == Encode(before) + ToBytes(x.value, x.width) + (Encode(after) + rest);
    assert bs[Width(before)..Width(before) + x.width] == ToBytes(x.value, x.width);
    BytesRoundTrip(x.value, x.width);
  }

  /** The same by position: item k of a layout. */
  lemma FieldAt(items: seq<Item>, k: nat, offset: nat, rest: seq<byte>)
    requires k < |items| && items[k].value < Pow256(items[k].width) && offset == Width(items[..k])
    ensures var bs := Encode(items) + rest;
            offset + items[k].width <= |bs| && Field(bs, offset, items[k].width) == items[k].value
  {
    assert items == items[..k] + [items[k]] + items[k + 1..];
    FieldOfItem(items[..k], items[k], items[k + 1..], rest);
  }

  lemma EncodeNone(items: seq<Item>)
    ensures Encode(items[..0]) == []
  {
  }

  lemma WidthStep(items: seq<Item>, k: nat)
    requires k < |items|
    ensures Width(items[..0]) == 0 && Encode(items[..0]) == []
    ensures Width(items[..k + 1]) == Width(items[..k]) + items[k].width
    ensures Encode(items[..k + 1]) == Encode(items[..k]) + ToBytes(items[k].value, items[k].width)
  {
    assert items[..k + 1] == items[..k] + [items[k]];
    EncodeSplit(items[..k], [items[k]]);
    EncodeOne(items[k]);
  }

  /** Reading bytes as a number and writing it back loses nothing. */
  lemma {:induction false} NumberRoundTrip(bs: seq<byte>)
    ensures ToBytes(FromBytes(bs), |bs|) == bs
  {
    if bs != [] {
      var front, last := bs[..|bs| - 1], bs[|bs| - 1];
      NumberRoundTrip(front);
      assert FromBytes(bs) / 256 == FromBytes(front) && FromBytes(bs) % 256 == last as int;
      assert bs == front + [last];
    }
  }

  lemma {:induction false} FromBytesJoin(a: seq<byte>, b: seq<byte>)
    ensures FromBytes(a + b) == FromBytes(a) * Pow256(|b|) + FromBytes(b)
  {
    if b == [] {
      assert a + b == a;
    } else {
      var front, last := b[..|b| - 1], b[|b| - 1];
      FromBytesJoin(a, front);
      assert (a + b)[..|a + b| - 1] == a + front;
      assert (FromBytes(a) * Pow256(|front|)) * 256 == FromBytes(a) * (256 * Pow256(|front|));
    }
  }

  /** Two neighbouring fields as one. */
  lemma FieldJoin(bs: seq<byte>, i: nat, m: nat, n: nat)
    requires i + m + n <= |bs|
    ensures Field(bs, i, m + n) == Field(bs, i, m) * Pow256(n) + Field(bs, i + m, n)
  {
    assert bs[i..i + (m + n)] == bs[i..i + m] + bs[i + m..i + m + n];
    FromBytesJoin(bs[i..i + m], bs[i + m..i + m + n]);
  }

  lemma FieldOfOne(bs: seq<byte>, i: nat)
    requires i < |bs|
    ensures Field(bs, i, 1) == bs[i] as int
  {
    assert bs[i..i + 1] == [bs[i]] && [bs[i]][..0] == [];
    assert FromBytes([bs[i]]) == FromBytes([]) * 256 + bs[i] as int;
  }
}
