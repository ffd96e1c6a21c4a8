/** The bounded byte stream object: a string of capacity + 1 characters, compacted in place. */
module ByteStreams {
  import opened Numbers
  import opened StreamModel
  import Model = StreamModel

  class ByteStream {
    const capacity: nat
    const content: array<byte>
    var error: bool
    var begin: nat
    var end: nat
    var pushedCnt: nat
    var poppedCnt: nat
    var isClosed: bool
    ghost var history: seq<byte>

    ghost predicate Valid()
      reads this, content
    {
      && content.Length == capacity + 1 < TWO64
      && begin <= end <= capacity
      && pushedCnt == |history|
      && end <= |history|
      && content[..end] == history[|history| - end..]
    }

    ghost function View(): Stream
      requires Valid()
      reads this, content
    {
      StreamState(capacity, history, |history| - (end - begin), poppedCnt, isClosed, error)
    }

    /** What is buffered lies between begin and end. */
    lemma BufferIs()
      requires Valid()
      ensures Buffer(View()) == content[begin..end]
    {
      assert content[begin..end] == content[..end][begin..];
    }

    ghost function Place(): (p: PlacedStream)
      requires Valid()
      reads this, content
    {
      Placed(View(), begin)
    }

    constructor (cap: nat)
      requires cap < TWO64 - 1
      ensures Valid() && View() == NewStream(cap) && begin == 0 && fresh(content)
    {
      capacity := cap;
      content := new byte[cap + 1](_ => 32);
      error, isClosed := false, false;
      begin, end, pushedCnt, poppedCnt := 0, 0, 0, 0;
      history := [];
    }

    /** Move the buffered bytes to the front of the string. */
    method Compact()
      requires Valid()
      modifies this`begin, this`end, content
      ensures Valid() && View() == old(View()) && begin == 0
    {
      ghost var buffered := content[begin..end];
      var n, start := end - begin, begin;
      forall i | 0 <= i < n {
        content[i] := content[start + i];
      }
      begin, end := 0, n;
      assert content[..n] == buffered;
    }

    method Push(data: seq<byte>)
      requires Valid()
      modifies this, content
      ensures Valid() && Place() == PushAt(old(Place()), data)
    {
      if isClosed {
        return;
      }
      if end + |data| > capacity {
        Compact();
      }
      var room := if end + |data| <= capacity then |data| else capacity - end;
      Append(data[..room]);
    }

    /** Copy data behind the buffered bytes, where it fits. */
    method Append(data: seq<byte>)
      requires Valid() && end + |data| <= capacity
      modifies this`end, this`pushedCnt, this`history, content
      ensures Valid() && begin == old(begin) && View() == old(View()).(history := old(history) + data)
    {
      ghost var held := content[..end];
      var at := end;
      forall i | 0 <= i < |data| {
        content[at + i] := data[i];
      }
      pushedCnt := pushedCnt + |data|;
      end := at + |data|;
      history := history + data;
      assert content[..end] == held + data;
    }

    method Close()
      requires Valid()
      modifies this`isClosed
      ensures Valid() && View() == Model.Close(old(View()))
    {
      isClosed := true;
    }

    method SetError()
      requires Valid()
      modifies this`error
      ensures Valid() && View() == Model.SetError(old(View()))
    {
      error := true;
    }

    /** The sum that is compared with the end is taken in 64 bits. */
    method Pop(len: u64)
      requires Valid()
      modifies this`begin, this`poppedCnt
      ensures Valid() && Place() == PopAt(old(Place()), len)
      ensures old(begin) + len < TWO64 ==> View() == Model.Pop(old(View()), len)
    {
      if U64(begin + len) <= end {
        var overflows := begin + len >= TWO64 && poppedCnt + len >= TWO64;
        poppedCnt := if overflows then poppedCnt + len - TWO64 else poppedCnt + len;
        begin := U64(begin + len);
      } else {
        begin := end;
        poppedCnt := poppedCnt + (end - begin);
      }
    }

    function Peek(): (view: seq<byte>)
      requires Valid()
      reads this, content
      ensures view == Buffer(View())
    {
      BufferIs();
      content[begin..end]
    }

    function AvailableCapacity(): (n: nat)
      requires Valid()
      reads this, content
      ensures n == Available(View())
    {
      capacity - (end - begin)
    }

    function BytesBuffered(): (n: nat)
      requires Valid()
      reads this, content
      ensures n == Buffered(View())
    {
      end - begin
    }

    function BytesPushed(): (n: nat)
      requires Valid()
      reads this, content
      ensures n == |View().history|
    {
      pushedCnt
    }

    predicate IsFinished()
      requires Valid()
      reads this, content
      ensures IsFinished() == Finished(View())
    {
      isClosed && begin == end
    }
  }

  /** Two legal pops are one, and the fronts they take join. */
  lemma ReadMore(s: Stream, n: nat, k: nat)
    requires n + k <= Buffered(s)
    ensures Model.Pop(Model.Pop(s, n), k) == Model.Pop(s, n + k)
    ensures Buffered(Model.Pop(s, n)) == Buffered(s) - n
    ensures Buffer(s)[..n] + Buffer(Model.Pop(s, n))[..k] == Buffer(s)[..n + k]
  {
    var t := Buffer(Model.Pop(s, n));
    assert t == Buffer(s)[n..];
  }

  /** Peek and pop until len bytes have been copied or the stream is drained. */
  method Read(reader: ByteStream, len: nat) returns (out: seq<byte>)
    requires reader.Valid()
    modifies reader
    ensures reader.Valid()
    ensures out == Front(old(reader.View()), len)
    ensures reader.View() == Model.Pop(old(reader.View()), |out|)
  {
    out := [];
    ghost var s0 := reader.View();
    while reader.BytesBuffered() > 0 && |out| < len
      invariant reader.Valid()
      invariant |out| <= len && |out| <= Buffered(s0)
      invariant reader.View() == Model.Pop(s0, |out|)
      invariant out == Buffer(s0)[..|out|]
      decreases reader.BytesBuffered()
    {
      var view := reader.Peek();
      view := view[..Min(|view|, len - |out|)];
      ReadMore(s0, |out|, |view|);
      out := out + view;
      reader.Pop(|view|);
    }
  }
}
