/** Data that overtakes SYN: where a receiver that has not seen SYN puts it, and when that is harmless. */
module EarlyData {
  import opened Numbers
  import opened Wrapping
  import opened StreamModel
  import opened ReassemblerModel
  import opened ReassemblerTheory

  /** The index at which a receiver before SYN, with the given checkpoint, puts data with absolute number a. */
  function EarlyIndex(a: nat, isn: u32, checkpoint: u64): u64 {
    U64(Unwrap(Wrap(a, isn), 0, checkpoint) - 1)
  }

  /** It is the right index exactly when the sender starts at zero and the checkpoint, left by earlier such
      segments, is not more than half a circle ahead. */
  lemma EarlyIndexRightIff(a: nat, isn: u32, checkpoint: u64)
    requires 0 < a < TWO31 && checkpoint < 0x8000_0000_0000_0000
    ensures EarlyIndex(a, isn, checkpoint) == a - 1 <==> isn == 0 && checkpoint <= a + TWO31
  {
    WrapUnwrap(Wrap(a, isn), 0, checkpoint);
    SameStart(a, isn);
    UnwrapWrap(a, 0, checkpoint);
    RightBefore(Unwrap(Wrap(a, isn), 0, checkpoint), a);
    hide Wrap, Unwrap, U64;
  }

  lemma SameStart(a: nat, isn: u32)
    requires a < TWO31
    ensures Wrap(a, isn) == Wrap(a, 0) <==> isn == 0
  {
  }

  lemma RightBefore(n: u64, a: nat)
    requires 0 < a < TWO31
    ensures U64(n - 1) == a - 1 <==> n == a
  {
  }

  /** The reassembler after data for index v has been put at index w, and after more substrings. */
  function AfterEarly(capacity: nat, w: u64, v: nat, n: nat, s: seq<byte>, subs: seq<Substring>): Reassembly
    requires v + n <= |s|
  {
    InsertAll(Insert(NewReassembly(capacity), w, s[v..v + n], false), subs)
  }

  ghost predicate Case(v: nat, n: nat, s: seq<byte>, subs: seq<Substring>) {
    v + n <= |s| < TWO64 && AllConsistent(subs, s)
  }

  lemma RightIsGood(capacity: nat, w: u64, v: nat, n: nat, s: seq<byte>)
    requires 0 < n && v + n <= |s| < TWO64 && (w == v || w >= capacity)
    ensures Good(Insert(NewReassembly(capacity), w, s[v..v + n], false), s)
  {
    NewSimulates(capacity, s);
    if w == v {
      SliceAgrees(s, v, v + n);
      hide Insert, Good, Agrees;
      InsertRefines(NewReassembly(capacity), w, s[v..v + n], false, s);
    } else {
      NothingPlaced(capacity, w, s[v..v + n]);
      hide Insert;
    }
  }

  lemma KeepsTrue(r: Reassembly, subs: seq<Substring>, s: seq<byte>)
    requires Good(r, s) && AllConsistent(subs, s) && |s| < TWO64
    ensures OutputTrue(InsertAll(r, subs), s)
  {
    InsertAllRefines(r, subs, s);
    hide InsertAll, SafeToWrite, GoodSeg;
  }

  lemma RightIsHarmless(capacity: nat, w: u64, v: nat, n: nat, s: seq<byte>, subs: seq<Substring>)
    requires Case(v, n, s, subs) && n > 0 && (w == v || w >= capacity)
    ensures OutputTrue(AfterEarly(capacity, w, v, n, s, subs), s)
  {
    hide Insert, InsertAll, Good, OutputTrue, AllConsistent;
    RightIsGood(capacity, w, v, n, s);
    KeepsTrue(Insert(NewReassembly(capacity), w, s[v..v + n], false), subs, s);
  }

  /** Beyond the room there is, nothing is kept. */
  lemma NothingPlaced(capacity: nat, w: u64, data: seq<byte>)
    requires w >= capacity && data != []
    ensures Insert(NewReassembly(capacity), w, data, false) == NewReassembly(capacity)
  {
    var r := NewReassembly(capacity);
    if w == 0 {
      PushNothing(r.output, data);
      hide Push;
      assert Dropped(r, 0, |data|) == false;
      assert WriteOut(r, 0, data) == r;
    }
  }

  lemma PushNothing(o: Stream, data: seq<byte>)
    requires Available(o) == 0
    ensures Push(o, data) == o
  {
    assert o.history + data[..0] == o.history;
  }

  /** A stream that is zero everywhere but at v. */
  function Spike(v: nat, size: nat): seq<byte>
    requires v < size
  {
    seq(size, i => if i == v then 1 else 0)
  }

  /** At the wrong index below the capacity the data ends up in the output, in place of other bytes. */
  lemma WrongIsHarmful(capacity: nat, w: u64, v: nat, n: nat) returns (s: seq<byte>, subs: seq<Substring>)
    requires n > 0 && v + n < TWO64 && w != v && w < capacity < TWO64 - 1
    ensures Case(v, n, s, subs) && !OutputTrue(AfterEarly(capacity, w, v, n, s, subs), s)
  {
    s := Spike(v, if v + n > w + 1 then v + n else w + 1);
    var data := s[v..v + n];
    assert data[0] == 1 && s[w] == 0;
    var r := Insert(NewReassembly(capacity), w, data, false);
    if w == 0 {
      subs := [];
      WrittenAtOnce(capacity, data);
    } else {
      subs := [Substring(0, s[..w], false)];
      SliceAgrees(s, 0, w);
      assert s[0..w] == s[..w];
      WrittenLater(capacity, w, data, s[..w]);
    }
    hide Insert, Spike, NewReassembly;
    OneInsert(r, subs);
  }

  lemma OneInsert(r: Reassembly, subs: seq<Substring>)
    ensures subs == [] ==> InsertAll(r, subs) == r
    ensures |subs| == 1 ==> InsertAll(r, subs) == Insert(r, subs[0].first, subs[0].data, subs[0].isLast)
  {
    hide Insert;
    if |subs| == 1 {
      var x := subs[0];
      assert subs[1..] == [];
      assert InsertAll(Insert(r, x.first, x.data, x.isLast), []) == Insert(r, x.first, x.data, x.isLast);
    }
  }

  lemma WrittenAtOnce(capacity: nat, data: seq<byte>)
    requires capacity > 0 && data != []
    ensures var t := Insert(NewReassembly(capacity), 0, data, false);
            t.next == |t.output.history| > 0 && t.output.history[0] == data[0]
  {
  }

  lemma WrittenLater(capacity: nat, w: nat, data: seq<byte>, front: seq<byte>)
    requires 0 < w < capacity < TWO64 && data != [] && |front| == w
    ensures var t := Insert(Insert(NewReassembly(capacity), w, data, false), 0, front, false);
            t.next == |t.output.history| > w && t.output.history[w] == data[0]
  {
    var start := NewReassembly(capacity);
    var g := NewSegment(start, w, data);
    var r := start.(segs := [g]);
    assert Insert(start, w, data, false) == r by {
      assert Emplace([], g) == [g];
    }
    var p := WriteStep(r, front, w);
    assert p.output.history == [] + front == front;
    assert Place(r, 0, front) == p;
    var q := DrainStep(p);
    assert q.segs == [] && Drain(q) == q && Drain(p) == q;
    assert q.output.history == front + data[..Min(|data|, capacity - w)];
  }

  /** Data for index v put at index w into an empty reassembler is harmless exactly when the index is right or the
      data is dropped: then, and only then, for every stream and whatever truthful substrings follow, the output is
      the stream up to next. */
  lemma EarlyDataIff(capacity: nat, w: u64, v: nat, n: nat)
    requires n > 0 && v + n < TWO64 && capacity < TWO64 - 1
    ensures w == v || w >= capacity
            <==> forall s, subs :: Case(v, n, s, subs) ==> OutputTrue(AfterEarly(capacity, w, v, n, s, subs), s)
  {
    hide AfterEarly, OutputTrue;
    if w == v || w >= capacity {
      forall s, subs | Case(v, n, s, subs)
        ensures OutputTrue(AfterEarly(capacity, w, v, n, s, subs), s)
      {
        RightIsHarmless(capacity, w, v, n, s, subs);
      }
    } else {
      var s, subs := WrongIsHarmful(capacity, w, v, n);
    }
  }
}
