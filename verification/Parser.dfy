/** Parser and serializer over chunked buffers. */
module Parsing {
  import opened Numbers
  import opened Bytes

  class BufferList {
    var size: nat
    var buffer: seq<seq<byte>>
    var skip: nat

    ghost predicate Valid()
      reads this
    {
      && skip <= (if buffer == [] then 0 else |buffer[0]|)
      && size == |Flatten(buffer)| - skip
    }

    /** What is still to be read. */
    ghost function Remaining(): (r: seq<byte>)
      requires Valid()
      reads this
      ensures |r| == size
    {
      FlattenFirst(buffer);
      Flatten(buffer)[skip..]
    }

    /** Empty chunks come last, so the first one has something to read if anything remains. */
    ghost predicate FrontReadable()
      reads this
    {
      EmptyLast(buffer) && (size > 0 ==> buffer != [] && skip < |buffer[0]|)
    }

    constructor (buffers: seq<seq<byte>>)
      ensures Valid() && Remaining() == Flatten(buffers) && buffer == buffers && skip == 0
    {
      size, buffer, skip := 0, [], 0;
      new;
      for i := 0 to |buffers|
        invariant buffer == buffers[..i] && skip == 0 && size == |Flatten(buffer)|
      {
        assert buffers[..i + 1] == buffers[..i] + [buffers[i]];
        FlattenAppend(buffers[..i], [buffers[i]]);
        FlattenOne(buffers[i]);
        size := size + |buffers[i]|;
        buffer := buffer + [buffers[i]];
      }
      assert buffers[..|buffers|] == buffers;
    }

    function Peek(): (view: seq<byte>)
      requires Valid() && buffer != []
      reads this
      ensures view <= Remaining()
    {
      assert buffer[0][skip..] + Flatten(buffer[1..]) == Flatten(buffer)[skip..];
      buffer[0][skip..]
    }

    /** Drop len bytes, or all there are. */
    method RemovePrefix(len: nat)
      requires Valid()
      modifies this
      ensures Valid() && Remaining() == old(Remaining())[Min(len, old(size))..]
      ensures old(FrontReadable()) ==> FrontReadable()
    {
      hide Flatten, BufferList.Remaining, BufferList.FrontReadable;
      var left := len;
      ghost var all, strict := Remaining(), FrontReadable();
      while left > 0 && buffer != []
        invariant Valid() && (strict ==> FrontReadable())
        invariant 0 <= left <= len && len - left <= |all| && Remaining() == all[len - left..]
        decreases left, |buffer|
      {
        var now := Min(left, |Peek()|);
        DropDrop(all, len - left, now);
        Advance(now);
        left := left - now;
      }
      NothingLeft(buffer);
      assert left == 0 || |all[len - left..]| == 0;
    }

    /** Skip `now` bytes of the first chunk, and drop it when used up. */
    method Advance(now: nat)
      requires Valid() && buffer != [] && now <= |buffer[0]| - skip
      modifies this
      ensures Valid() && Remaining() == old(Remaining())[now..]
      ensures old(FrontReadable()) ==> FrontReadable()
      ensures |buffer| == old(|buffer|) - (if now == old(|buffer[0]| - skip) then 1 else 0)
    {
      assert Flatten(buffer) == buffer[0] + Flatten(buffer[1..]);
      ghost var strict := FrontReadable();
      skip := skip + now;
      size := size - now;
      if skip == |buffer[0]| {
        buffer := buffer[1..];
        skip := 0;
        if strict && size > 0 {
          FirstNotEmpty(buffer);
        }
      }
    }

    /** Everything that remains, as chunks. */
    method DumpAll() returns (out: seq<seq<byte>>)
      requires Valid()
      modifies this
      ensures Flatten(out) == old(Remaining())
      ensures old(FrontReadable()) ==> EmptyLast(out)
    {
      out := [];
      if size == 0 {
        return;
      }
      FlattenFirst(buffer);
      assert Flatten(buffer) == buffer[0] + Flatten(buffer[1..]);
      out := [buffer[0][skip..]] + buffer[1..];
      assert out[1..] == buffer[1..];
      buffer := buffer[1..];
    }

    /** Everything that remains, as chunks, left in place. */
    function Chunks(): (views: seq<seq<byte>>)
      requires Valid()
      reads this
      ensures Flatten(views) == Remaining()
    {
      if size == 0 then []
      else
        assert Flatten(buffer) == buffer[0] + Flatten(buffer[1..]);
        assert ([buffer[0][skip..]] + buffer[1..])[1..] == buffer[1..];
        [buffer[0][skip..]] + buffer[1..]
    }
  }

  lemma DropDrop(s: seq<byte>, a: nat, b: nat)
    requires a + b <= |s|
    ensures s[a..][b..] == s[a + b..]
  {
  }

  lemma NothingLeft(chunks: seq<seq<byte>>)
    ensures chunks == [] ==> Flatten(chunks) == []
  {
  }

  lemma FlattenFirst(chunks: seq<seq<byte>>)
    ensures chunks != [] ==> |chunks[0]| <= |Flatten(chunks)|
  {
  }

  class Parser {
    const input: BufferList
    var error: bool

    ghost predicate Valid()
      reads this, input
    {
      input.Valid() && input.FrontReadable()
    }

    ghost function Remaining(): seq<byte>
      requires Valid()
      reads this, input
    {
      input.Remaining()
    }

    constructor (buffers: seq<seq<byte>>)
      requires EmptyLast(buffers)
      ensures Valid() && fresh(input) && Remaining() == Flatten(buffers) && !error
    {
      input := new BufferList(buffers);
      error := false;
      new;
      if Flatten(buffers) != [] {
        FirstNotEmpty(buffers);
      }
    }

    /** Read an n-byte integer, or flag an error and leave `out` as it was when too little remains or there
        was an error before. */
    method Integer(n: nat, current: nat) returns (out: nat)
      requires Valid() && n > 0
      modifies this`error, input
      ensures Valid() && error == (old(error) || n > old(|Remaining()|))
      ensures error ==> out == current && Remaining() == old(Remaining())
      ensures !error ==> out == FromBytes(old(Remaining())[..n]) && Remaining() == old(Remaining())[n..]
    {
      hide Flatten, EmptyLast;
      if n > input.size {
        error := true;
      }
      if error {
        return current;
      }
      out := 0;
      for i := 0 to n
        invariant Valid() && !error
        invariant Remaining() == old(Remaining())[i..]
        invariant out == FromBytes(old(Remaining())[..i])
      {
        ghost var all := old(Remaining());
        assert input.buffer != [];
        var first := input.Peek()[0];
        assert first == Remaining()[0] == all[i];
        assert all[..i + 1][..i] == all[..i];
        out := out * 256 + first as int;
        input.RemovePrefix(1);
        assert all[i..][1..] == all[i + 1..];
      }
    }

    /** Read the n-byte integer at position i of `all`, in a parser that has read as far as that; 0 on error. */
    method IntegerAt(n: nat, ghost all: seq<byte>, ghost i: nat) returns (out: nat)
      requires Valid() && n > 0
      requires !error ==> i <= |all| && Remaining() == all[i..]
      modifies this`error, input
      ensures Valid() && (old(error) ==> error) && (!old(error) ==> error == (|all| < i + n)) && out < Pow256(n)
      ensures !error ==> out == Field(all, i, n) && Remaining() == all[i + n..]
    {
      hide Flatten, EmptyLast;
      Pow256Positive(n);
      out := Integer(n, 0);
      if !error {
        assert all[i..][..n] == all[i..i + n] && all[i..][n..] == all[i + n..];
        FieldBound(all, i, n);
      }
    }

    method SetError()
      modifies this`error
      ensures error
    {
      error := true;
    }

    method RemovePrefix(n: nat)
      requires Valid()
      modifies input
      ensures Valid() && Remaining() == old(Remaining())[Min(n, old(|Remaining()|))..]
    {
      input.RemovePrefix(n);
    }

    method AllRemaining() returns (out: seq<seq<byte>>)
      requires Valid()
      modifies input
      ensures Flatten(out) == old(Remaining()) && EmptyLast(out)
    {
      out := input.DumpAll();
    }
  }

  class Serializer {
    var output: seq<seq<byte>>
    var buffer: seq<byte>

    /** No chunk put out is empty. */
    ghost predicate Valid()
      reads this
    {
      Solid(output)
    }

    /** Everything written so far. */
    ghost function Written(): seq<byte>
      reads this
    {
      Flatten(output) + buffer
    }

    constructor ()
      ensures Valid() && Written() == []
    {
      output, buffer := [], [];
    }

    /** Append val as an n-byte integer. */
    method Integer(val: nat, n: nat)
      requires Valid()
      modifies this`buffer
      ensures Valid() && Written() == old(Written()) + ToBytes(val, n)
    {
      for i := 0 to n
        invariant Valid() && output == old(output) && buffer == old(buffer) + ToBytes(val, n)[..i]
      {
        ByteAt(val, n, i);
        assert ToBytes(val, n)[..i + 1] == ToBytes(val, n)[..i] + [ToBytes(val, n)[i]];
        buffer := buffer + [(ShiftRight(val, n - i - 1) % 256) as byte];
      }
      assert ToBytes(val, n)[..n] == ToBytes(val, n);
      assert Written() == old(Written()) + ToBytes(val, n);
    }

    /** Append item k of a layout of which the earlier ones have been written behind `before`. */
    method IntegerOf(val: nat, n: nat, ghost items: seq<Item>, ghost k: nat, ghost before: seq<byte>)
      requires Valid() && k < |items| && items[k] == Item(val, n)
      requires Written() == before + Encode(items[..k])
      modifies this`buffer
      ensures Valid() && Written() == before + Encode(items[..k + 1])
    {
      WidthStep(items, k);
      Integer(val, n);
      assert (before + Encode(items[..k])) + ToBytes(val, n) == before + (Encode(items[..k]) + ToBytes(val, n));
    }

    method Flush()
      requires Valid()
      modifies this
      ensures Valid() && Written() == old(Written()) && buffer == []
    {
      if buffer != [] {
        FlattenAppend(output, [buffer]);
        FlattenOne(buffer);
        output := output + [buffer];
        buffer := [];
      }
    }

    method Buffer(buf: seq<byte>)
      requires Valid()
      modifies this
      ensures Valid() && Written() == old(Written()) + buf
    {
      Flush();
      if buf != [] {
        FlattenAppend(output, [buf]);
        FlattenOne(buf);
        output := output + [buf];
      }
    }

    method Buffers(bufs: seq<seq<byte>>)
      requires Valid()
      modifies this
      ensures Valid() && Written() == old(Written()) + Flatten(bufs)
    {
      for i := 0 to |bufs|
        invariant Valid() && Written() == old(Written()) + Flatten(bufs[..i])
      {
        assert bufs[..i + 1] == bufs[..i] + [bufs[i]];
        FlattenAppend(bufs[..i], [bufs[i]]);
        FlattenOne(bufs[i]);
        Buffer(bufs[i]);
      }
      assert bufs[..|bufs|] == bufs;
    }

    method Output() returns (out: seq<seq<byte>>)
      requires Valid()
      modifies this
      ensures Valid() && Flatten(out) == old(Written()) && Solid(out)
    {
      Flush();
      out := output;
    }
  }
}
