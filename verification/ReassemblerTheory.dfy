/** The reassembler refines a set of known stream positions; what it computes depends only on that set. */
module ReassemblerTheory {
  import opened Numbers
  import opened StreamModel
  import opened ReassemblerModel
  import Out = StreamModel
  import Model = ReassemblerModel

  /** A call that tells the truth about stream s. */
  ghost predicate Consistent(first: u64, data: seq<byte>, isLast: bool, s: seq<byte>) {
    Agrees(data, first, s) && (isLast ==> first + |data| == |s|)
  }

  /** One past the last position for which there is room: bytes removed plus capacity. */
  function Edge(r: Reassembly): nat {
    r.output.removed + r.output.capacity
  }

  predicate Clipped(g: Seg) {
    |g.data| > g.end - g.begin
  }

  /** A stored segment is true of s and ends within the room. */
  ghost predicate GoodSeg(g: Seg, edge: nat, s: seq<byte>) {
    g.index == 0 && g.end <= edge && Agrees(g.data, g.begin, s) && (Clipped(g) ==> g.begin < g.end)
  }

  /** Segment h reaches across the beginning of g, so that next never stops there while h is stored. */
  predicate Covers(h: Seg, g: Seg) {
    h.begin < g.begin < h.end
  }

  predicate CoveredBySome(segs: seq<Seg>, g: Seg) {
    exists h :: h in segs && Covers(h, g)
  }

  /** Writing out g whole, which happens only when next stops at its beginning, does no harm: it was not
      clipped, or it is clipped at the present limit, or next has passed or will skip its beginning. */
  ghost predicate SafeToWrite(r: Reassembly, g: Seg) {
    Clipped(g) ==> g.end == Edge(r) || g.begin < r.next || CoveredBySome(r.segs, g)
  }

  /** The output is the stream up to next. */
  ghost predicate OutputTrue(r: Reassembly, s: seq<byte>) {
    r.next <= |s| && r.output.history == s[..r.next]
  }

  /** The invariant while segments are being drained. */
  ghost predicate Draining(r: Reassembly, s: seq<byte>) {
    && OutputTrue(r, s) && Ordered(r.segs)
    && (forall g :: g in r.segs ==> GoodSeg(g, Edge(r), s) && SafeToWrite(r, g))
    && (r.hasLast ==> r.last == |s|)
    && (r.output.closed ==> r.hasLast && r.next == |s|)
  }

  /** The invariant between calls: the output is exactly s up to next, and every stored segment
      starts beyond next. */
  ghost predicate Good(r: Reassembly, s: seq<byte>) {
    Draining(r, s) && forall g :: g in r.segs ==> r.next < g.begin
  }

  // ----- insert -----

  /** Pushing what the stream continues with extends the prefix that has been written. */
  lemma PushContinues(o: Stream, data: seq<byte>, s: seq<byte>)
    requires !o.closed && |o.history| <= |s| && o.history == s[..|o.history|] && Agrees(data, |o.history|, s)
    ensures var n := |o.history| + Min(|data|, Available(o));
            n <= |s| && Push(o, data) == o.(history := s[..n])
  {
    var m := |o.history|;
    var k := Min(|data|, Available(o));
    if k > 0 {
      AgreesSlice(data, m, s, 0, k);
      assert s[..m] + s[m..m + k] == s[..m + k];
    } else {
      assert o.history + data[..0] == s[..m];
    }
  }

  lemma PieceAgrees(g: Seg, next: nat, edge: nat, s: seq<byte>)
    requires GoodSeg(g, edge, s) && g.begin <= next < g.end
    requires Clipped(g) ==> g.end == edge || g.begin < next
    ensures next < |s| && Agrees(Piece(g, next), next, s)
    ensures Min(|Piece(g, next)|, edge - next) == g.end - next
  {
    AgreesSlice(g.data, g.begin, s, next - g.begin, g.end - g.begin);
    assert Piece(g, next) == g.data || Piece(g, next) == s[next..g.end];
  }

  /** A segment that next has reached the end of is not needed to cover the others. */
  lemma SafeAfterFirst(r: Reassembly, g: Seg)
    requires r.segs != [] && r.segs[0].end <= r.next && g in r.segs && SafeToWrite(r, g)
    ensures SafeToWrite(r.(segs := r.segs[1..]), g)
  {
    if CoveredBySome(r.segs, g) {
      var h :| h in r.segs && Covers(h, g);
      assert h == r.segs[0] || h in r.segs[1..];
    }
  }

  /** Nor is the first one after it has been written out. */
  lemma SafeAfterStep(r: Reassembly, g: Seg)
    requires r.segs != [] && r.segs[0].begin <= r.next < r.segs[0].end && g in r.segs && SafeToWrite(r, g)
    ensures SafeToWrite(DrainStep(r), g)
  {
    SafeAfterFirst(r.(next := r.segs[0].end), g);
    assert DrainStep(r).segs == r.segs[1..] && Edge(DrainStep(r)) == Edge(r);
  }

  /** The first segment, where next stops at its beginning, is not covered by any other. */
  lemma FirstUncovered(r: Reassembly)
    requires Ordered(r.segs) && r.segs != []
    ensures !CoveredBySome(r.segs, r.segs[0])
  {
    forall h | h in r.segs
      ensures !Covers(h, r.segs[0])
    {
      assert h == r.segs[0] || Less(r.segs[0], h);
    }
  }

  lemma DrainOne(r: Reassembly, s: seq<byte>)
    requires Draining(r, s) && r.segs != [] && r.segs[0].begin <= r.next < r.segs[0].end
    ensures var t := DrainStep(r);
            Draining(t, s) && Known(t) == Known(r) && Edge(t) == Edge(r)
  {
    var g := r.segs[0];
    FirstUncovered(r);
    PieceAgrees(g, r.next, Edge(r), s);
    PushContinues(r.output, Piece(g, r.next), s);
    var t := DrainStep(r);
    assert t == r.(output := r.output.(history := s[..g.end]), next := g.end, segs := r.segs[1..]);
    forall h | h in t.segs
      ensures GoodSeg(h, Edge(t), s) && SafeToWrite(t, h)
    {
      SafeAfterStep(r, h);
    }
    hide GoodSeg, SafeToWrite, Piece;
    assert Known(t) == Known(r);
  }

  lemma {:induction false} DrainGood(r: Reassembly, s: seq<byte>)
    requires Draining(r, s)
    ensures Good(Drain(r), s) && Known(Drain(r)) == Known(r) && Edge(Drain(r)) == Edge(r)
    ensures Drain(r).hasLast == r.hasLast && Drain(r).last == r.last
    ensures Drain(r).output.closed == r.output.closed
    decreases |r.segs|
  {
    if r.segs == [] {
    } else if r.next < r.segs[0].begin {
      forall g | g in r.segs
        ensures r.next < g.begin
      {
        assert g == r.segs[0] || Less(r.segs[0], g);
      }
    } else if r.next >= r.segs[0].end {
      var t := r.(segs := r.segs[1..]);
      forall g | g in t.segs
        ensures GoodSeg(g, Edge(t), s) && SafeToWrite(t, g)
      {
        SafeAfterFirst(r, g);
      }
      DrainGood(t, s);
    } else {
      DrainOne(r, s);
      DrainGood(DrainStep(r), s);
    }
  }

  lemma {:induction false} EmplaceCovered(segs: seq<Seg>, g: Seg)
    ensures Covered(Emplace(segs, g)) == Covered(segs) + Interval(g.begin, g.end)
  {
    if segs != [] && !Less(g, segs[0]) && Less(segs[0], g) {
      EmplaceCovered(segs[1..], g);
    }
  }

  /** Storing a substring that starts beyond next. */
  lemma PlaceStored(r: Reassembly, first: u64, data: seq<byte>, s: seq<byte>)
    requires Good(r, s) && Agrees(data, first, s) && r.next < first < Edge(r)
    ensures var t := Store(r, first, data);
            Draining(t, s) && Known(t) == Known(r) + Interval(first, Min(first + |data|, Edge(r)))
  {
    hide Emplace, Covered;
    var g := SegValue(first, Min(first + |data|, Edge(r)), data, 0);
    EmplaceOrdered(r.segs, g);
    EmplaceElements(r.segs, g);
    EmplaceCovered(r.segs, g);
    var t := Store(r, first, data);
    forall h | h in r.segs && CoveredBySome(r.segs, h)
      ensures CoveredBySome(t.segs, h)
    {
      var c :| c in r.segs && Covers(c, h);
      assert c in t.segs;
    }
  }

  /** The part of a substring from position next on, cut to k bytes. */
  lemma TailAgrees(data: seq<byte>, first: nat, next: nat, k: nat, s: seq<byte>)
    requires Agrees(data, first, s) && first <= next < first + |data| && k <= first + |data| - next
    ensures next + k <= |s| && data[next - first..][..k] == s[next..next + k]
  {
    AgreesSlice(data, first, s, next - first, next - first + k);
    assert data[next - first..][..k] == data[next - first..next - first + k];
  }

  /** Writing what the stream continues with, as far as there is room. */
  lemma WriteContinues(r: Reassembly, data: seq<byte>, s: seq<byte>)
    requires OutputTrue(r, s) && !r.output.closed && Agrees(data, r.next, s)
    ensures var n := Min(r.next + |data|, Edge(r));
            n <= |s| && WriteStep(r, data, n - r.next) == r.(output := r.output.(history := s[..n]), next := n)
  {
    PushContinues(r.output, data, s);
  }

  /** The same for a cut tail. */
  lemma WriteTail(r: Reassembly, first: u64, data: seq<byte>, k: nat, s: seq<byte>)
    requires OutputTrue(r, s) && !r.output.closed && Agrees(data, first, s) && first <= r.next < first + |data|
    requires k <= first + |data| - r.next && k <= Available(r.output)
    ensures r.next + k <= |s|
    ensures WriteStep(r, data[r.next - first..][..k], k)
         == r.(output := r.output.(history := s[..r.next + k]), next := r.next + k)
  {
    TailAgrees(data, first, r.next, k, s);
    SliceAgrees(s, r.next, r.next + k);
    WriteContinues(r, data[r.next - first..][..k], s);
  }

  /** Writing out the new part of a substring that starts at or before next: the output grows to the end
      of the substring or to the edge, and segments are forgotten only when the edge is reached. */
  lemma PlaceWrites(r: Reassembly, first: u64, data: seq<byte>, s: seq<byte>)
    requires OutputTrue(r, s) && !r.output.closed && Agrees(data, first, s) && first <= r.next < first + |data|
    ensures var n := Min(first + |data|, Edge(r));
            var t := WriteOut(r, first, data);
            n <= |s| && (t.segs == r.segs || (t.segs == [] && n == Edge(r)))
            && t == r.(output := r.output.(history := s[..n]), next := n, segs := t.segs)
  {
    hide WriteStep, Agrees;
    var avail := Available(r.output);
    assert r.next + avail == Edge(r);
    hide OutputTrue, Available, Edge;
    if first == r.next {
      WriteContinues(r, data, s);
    } else if first + |data| >= r.next + avail {
      WriteTail(r, first, data, avail, s);
    } else {
      var tail := data[r.next - first..];
      assert tail[..|tail|] == tail;
      WriteTail(r, first, data, |tail|, s);
    }
  }

  lemma SliceAgrees(s: seq<byte>, a: nat, b: nat)
    requires a <= b <= |s|
    ensures Agrees(s[a..b], a, s)
  {
  }

  lemma PlaceWritten(r: Reassembly, first: u64, data: seq<byte>, s: seq<byte>)
    requires Good(r, s) && Agrees(data, first, s) && first <= r.next <= first + |data|
    requires first < r.next ==> r.next < first + |data|
    ensures var t := WriteOut(r, first, data);
            Draining(t, s) && Known(t) == Known(r) + Interval(first, Min(first + |data|, Edge(r)))
  {
    if r.next < first + |data| {
      PlaceWrites(r, first, data, s);
    } else {
      assert Push(r.output, data).history == r.output.history + [] == r.output.history;
    }
    var t := WriteOut(r, first, data);
    forall p | p in Covered(r.segs)
      ensures 0 <= p < Edge(r)
    {
      InCovered(r.segs, p);
    }
    var added := Interval(first, Min(first + |data|, Edge(r)));
    if t.segs == r.segs {
      assert Interval(0, t.next) == Interval(0, r.next) + added;
    } else {
      assert t.next == Edge(r) && Known(t) == Interval(0, Edge(r)) + {};
      assert Interval(0, Edge(r)) == Known(r) + added;
    }
  }

  lemma NoteGood(r: Reassembly, first: u64, data: seq<byte>, isLast: bool, s: seq<byte>)
    requires Good(r, s) && Consistent(first, data, isLast, s) && |s| < TWO64
    ensures Good(NoteLast(r, first, |data|, isLast), s)
  {
  }

  lemma CloseGood(r: Reassembly, s: seq<byte>)
    requires Good(r, s)
    ensures Good(CloseIfComplete(r), s)
  {
  }

  /** The loop and the close after the case split. */
  lemma FinishGood(r: Reassembly, s: seq<byte>)
    requires Draining(r, s)
    ensures var t := CloseIfComplete(Drain(r));
            Good(t, s) && Known(t) == Known(r) && Edge(t) == Edge(r)
  {
    DrainGood(r, s);
    CloseGood(Drain(r), s);
  }

  /** The case split adds what there is room for. */
  lemma PlaceGood(r: Reassembly, first: u64, data: seq<byte>, s: seq<byte>)
    requires Good(r, s) && Agrees(data, first, s) && !Dropped(r, first, |data|)
    ensures var t := Place(r, first, data);
            Draining(t, s) && Known(t) == Known(r) + Interval(first, Min(first + |data|, Edge(r)))
            && Edge(t) == Edge(r)
  {
    if first > r.next {
      PlaceStored(r, first, data, s);
    } else {
      PlaceWritten(r, first, data, s);
    }
  }

  /** Refinement: a truthful insert adds to the known positions those of the substring for which there
      is room, and nothing else; it keeps the invariant, so the output stays the stream up to next. */
  lemma InsertRefines(r: Reassembly, first: u64, data: seq<byte>, isLast: bool, s: seq<byte>)
    requires Good(r, s) && Consistent(first, data, isLast, s) && |s| < TWO64
    ensures var t := Insert(r, first, data, isLast);
            Good(t, s) && Edge(t) == Edge(r)
            && Known(t) == Known(r) + Interval(first, Min(first + |data|, Edge(r)))
  {
    NoteGood(r, first, data, isLast, s);
    var noted := NoteLast(r, first, |data|, isLast);
    assert Known(noted) == Known(r) && Edge(noted) == Edge(r);
    if Dropped(noted, first, |data|) {
      assert Interval(first, Min(first + |data|, Edge(r))) <= Interval(0, r.next);
    } else {
      PlaceGood(noted, first, data, s);
      FinishGood(Place(noted, first, data), s);
    }
  }

  /** next is the first position not known. */
  lemma FirstGap(r: Reassembly, s: seq<byte>)
    requires Good(r, s)
    ensures r.next !in Known(r) && forall i :: 0 <= i < r.next ==> i in Known(r)
    ensures Pending(r) == |Known(r)| - r.next
  {
    InCovered(r.segs, r.next);
    forall i | i in Covered(r.segs)
      ensures i !in Interval(0, r.next)
    {
      InCovered(r.segs, i);
    }
    IntervalSize(0, r.next);
  }

  // ----- pops -----

  function PopOutput(r: Reassembly, len: nat): Reassembly {
    r.(output := Pop(r.output, len))
  }

  /** Every clipped segment in store is covered by another one. */
  predicate PopSafe(r: Reassembly) {
    forall g :: g in r.segs && Clipped(g) ==> CoveredBySome(r.segs, g)
  }

  /** Reading from the output keeps the invariant when nothing is removed or no clipped segment lies uncovered. */
  lemma PopKeepsGood(r: Reassembly, len: nat, s: seq<byte>)
    requires Good(r, s) && (Min(len, Buffered(r.output)) == 0 || PopSafe(r))
    ensures Good(PopOutput(r, len), s) && Known(PopOutput(r, len)) == Known(r)
  {
    var t := PopOutput(r, len);
    forall g | g in t.segs
      ensures GoodSeg(g, Edge(t), s) && SafeToWrite(t, g)
    {
      assert g in r.segs && GoodSeg(g, Edge(r), s);
    }
  }

  /** Why the condition is there. With capacity 3 the truthful substrings "a" at 0 and "cd" at 2 of the
      stream "abcd" leave "cd" stored but clipped to one position. */
  lemma ClippedStored(a: byte, b: byte, c: byte, d: byte)
    ensures var s := [a, b, c, d];
            var r := Insert(Insert(NewReassembly(3), 0, [a], false), 2, [c, d], false);
            && Consistent(0, [a], false, s) && Consistent(2, [c, d], false, s) && Good(r, s)
            && r == Reassembly(StreamState(3, [a], 0, 0, false, false), [SegValue(2, 3, [c, d], 0)], 1, 0, false)
  {
    var s := [a, b, c, d];
    var r0 := NewReassembly(3);
    InsertRefines(r0, 0, [a], false, s);
    var r1 := Insert(r0, 0, [a], false);
    assert r1 == r0.(output := r0.output.(history := [a]), next := 1);
    InsertRefines(r1, 2, [c, d], false, s);
    assert Place(r1, 2, [c, d]) == r1.(segs := [SegValue(2, 3, [c, d], 0)]);
  }

  /** After one byte is popped from it, the truthful substrings "b" at 1 and, when everything has been
      popped, "d" at 3 make the output "abcdd". */
  lemma ClippedThenPopped(a: byte, b: byte, c: byte, d: byte)
    ensures var s := [a, b, c, d];
            var r1 := Reassembly(StreamState(3, [a], 0, 0, false, false), [SegValue(2, 3, [c, d], 0)], 1, 0, false);
            var r2 := Insert(PopOutput(r1, 1), 1, [b], false);
            var r3 := Insert(PopOutput(r2, 3), 3, [d], false);
            && Consistent(1, [b], false, s) && Consistent(3, [d], false, s)
            && r2.next == 3 && r2.output.history == [a, b, c, d]
            && r3.output.history == [a, b, c, d, d]
  {
    var g := SegValue(2, 3, [c, d], 0);
    var p := Reassembly(StreamState(3, [a, b], 1, 1, false, false), [g], 2, 0, false);
    var t := Reassembly(StreamState(3, [a, b, c, d], 1, 1, false, false), [], 3, 0, false);
    assert Piece(g, 2) == [c, d] && [a, b] + [c, d] == [a, b, c, d];
    assert Push(p.output, [c, d]) == t.output;
    assert Drain(p) == Drain(t) == t;
    var r1 := Reassembly(StreamState(3, [a], 0, 0, false, false), [g], 1, 0, false);
    assert Place(PopOutput(r1, 1), 1, [b]) == p;
    var q := t.(output := Pop(t.output, 3));
    assert Push(q.output, [d]).history == [a, b, c, d, d];
  }

  // ----- runs of inserts and pops -----

  datatype Event = InsertEvent(first: u64, data: seq<byte>, isLast: bool) | PopEvent(len: nat)

  function Step(r: Reassembly, e: Event): Reassembly {
    match e
    case InsertEvent(first, data, isLast) => Insert(r, first, data, isLast)
    case PopEvent(len) => PopOutput(r, len)
  }

  /** Truthful inserts, and no byte removed while a clipped segment lies uncovered. */
  ghost predicate Allowed(r: Reassembly, e: Event, s: seq<byte>) {
    match e
    case InsertEvent(first, data, isLast) => Consistent(first, data, isLast, s)
    case PopEvent(len) => Min(len, Buffered(r.output)) == 0 || PopSafe(r)
  }

  function RunEvents(r: Reassembly, events: seq<Event>): Reassembly
    decreases |events|
  {
    if events == [] then r else RunEvents(Step(r, events[0]), events[1..])
  }

  ghost predicate AllAllowed(r: Reassembly, events: seq<Event>, s: seq<byte>)
    decreases |events|
  {
    events == [] || (Allowed(r, events[0], s) && AllAllowed(Step(r, events[0]), events[1..], s))
  }

  /** The reference: a set of known positions and a count of removed bytes. */
  datatype Reference = Reference(known: set<int>, removed: nat)

  /** The first number from i on that is not in k. */
  function Gap(k: set<int>, i: nat): nat
    decreases |k|
  {
    if i in k then Gap(k - {i}, i + 1) else i
  }

  function ReferenceStep(q: Reference, e: Event, capacity: nat): Reference {
    match e
    case InsertEvent(first, data, _) =>
      q.(known := q.known + Interval(first, Min(first + |data|, q.removed + capacity)))
    case PopEvent(len) =>
      q.(removed := Max(q.removed, Min(q.removed + len, Gap(q.known, 0))))
  }

  function ReferenceRun(q: Reference, events: seq<Event>, capacity: nat): Reference
    decreases |events|
  {
    if events == [] then q else ReferenceRun(ReferenceStep(q, events[0], capacity), events[1..], capacity)
  }

  lemma {:induction false} GapIs(k: set<int>, i: nat, n: nat)
    requires i <= n && n !in k && forall j :: i <= j < n ==> j in k
    ensures Gap(k, i) == n
    decreases n - i
  {
    if i < n {
      GapIs(k - {i}, i + 1, n);
    }
  }

  ghost predicate Simulates(r: Reassembly, q: Reference, s: seq<byte>) {
    Good(r, s) && Known(r) == q.known && r.output.removed == q.removed && r.next == Gap(q.known, 0)
  }

  lemma InsertSimulates(r: Reassembly, q: Reference, first: u64, data: seq<byte>, isLast: bool, s: seq<byte>)
    requires Simulates(r, q, s) && Consistent(first, data, isLast, s) && |s| < TWO64
    ensures var t := Insert(r, first, data, isLast);
            Simulates(t, ReferenceStep(q, InsertEvent(first, data, isLast), r.output.capacity), s)
            && t.output.capacity == r.output.capacity
  {
    InsertRefines(r, first, data, isLast, s);
    InsertFrame(r, first, data, isLast);
    NextIsGap(Insert(r, first, data, isLast), s);
  }

  lemma NextIsGap(r: Reassembly, s: seq<byte>)
    requires Good(r, s)
    ensures r.next == Gap(Known(r), 0)
  {
    FirstGap(r, s);
    GapIs(Known(r), 0, r.next);
  }

  lemma StepSimulates(r: Reassembly, q: Reference, e: Event, s: seq<byte>)
    requires Simulates(r, q, s) && Allowed(r, e, s) && |s| < TWO64
    ensures Simulates(Step(r, e), ReferenceStep(q, e, r.output.capacity), s)
    ensures Step(r, e).output.capacity == r.output.capacity
  {
    match e
    case InsertEvent(first, data, isLast) =>
      InsertSimulates(r, q, first, data, isLast, s);
    case PopEvent(len) =>
      PopKeepsGood(r, len, s);
      assert Known(PopOutput(r, len)) == Known(r);
  }

  /** What inserting leaves alone. */
  ghost predicate SameFrame(r: Reassembly, t: Reassembly) {
    && t.output.removed == r.output.removed && t.output.capacity == r.output.capacity
    && t.output.error == r.output.error && t.hasLast == r.hasLast
  }

  lemma {:induction false} DrainFrame(r: Reassembly)
    ensures SameFrame(r, Drain(r))
    ensures forall g :: g in Drain(r).segs ==> g in r.segs
    decreases |r.segs|
  {
    if r.segs == [] || r.next < r.segs[0].begin {
    } else if r.next >= r.segs[0].end {
      DrainFrame(r.(segs := r.segs[1..]));
    } else {
      DrainFrame(DrainStep(r));
    }
  }

  lemma PlaceFrame(r: Reassembly, first: u64, data: seq<byte>)
    requires !Dropped(r, first, |data|)
    ensures SameFrame(r, Place(r, first, data))
    ensures forall g :: g in Place(r, first, data).segs ==>
              g in r.segs || (r.next < first < r.next + Available(r.output) && g == NewSegment(r, first, data))
  {
    hide Emplace, NewSegment;
    if first > r.next {
      EmplaceElements(r.segs, NewSegment(r, first, data));
    }
  }

  /** Inserting removes nothing from the output, and what it stores is an old segment or the new one. */
  lemma InsertFrame(r: Reassembly, first: u64, data: seq<byte>, isLast: bool)
    ensures var t := Insert(r, first, data, isLast);
            && SameFrame(r.(hasLast := r.hasLast || isLast), t)
            && (forall g :: g in t.segs ==>
                  g in r.segs || (r.next < first < r.next + Available(r.output) && g == NewSegment(r, first, data)))
  {
    var noted := NoteLast(r, first, |data|, isLast);
    if !Dropped(noted, first, |data|) {
      PlaceFrame(noted, first, data);
      hide Place, Drain;
      DrainFrame(Place(noted, first, data));
    }
  }

  /** Over any run of truthful inserts and pops, none of which removes a byte while a clipped segment
      lies uncovered, the reassembler simulates the reference: same known positions, same removed count, next is
      the first gap, and the output is the stream up to there. */
  lemma {:induction false} RunSimulates(r: Reassembly, q: Reference, events: seq<Event>, s: seq<byte>)
    requires Simulates(r, q, s) && AllAllowed(r, events, s) && |s| < TWO64
    ensures Simulates(RunEvents(r, events), ReferenceRun(q, events, r.output.capacity), s)
    decreases |events|
  {
    if events != [] {
      StepSimulates(r, q, events[0], s);
      RunSimulates(Step(r, events[0]), ReferenceStep(q, events[0], r.output.capacity), events[1..], s);
    }
  }

  /** A new reassembler has everything to learn. */
  lemma NewSimulates(capacity: nat, s: seq<byte>)
    ensures Simulates(NewReassembly(capacity), Reference({}, 0), s)
  {
    assert Known(NewReassembly(capacity)) == Interval(0, 0) + Covered([]) == {};
  }

  /** The simulation from a new reassembler on. */
  lemma RunSimulatesNew(capacity: nat, events: seq<Event>, s: seq<byte>)
    requires AllAllowed(NewReassembly(capacity), events, s) && |s| < TWO64
    ensures Simulates(RunEvents(NewReassembly(capacity), events), ReferenceRun(Reference({}, 0), events, capacity), s)
  {
    NewSimulates(capacity, s);
    RunSimulates(NewReassembly(capacity), Reference({}, 0), events, s);
  }

  // ----- when a pop is safe -----

  /** Segments that end at or before next are erased without a trace. */
  lemma {:induction false} DrainPassed(r: Reassembly)
    requires forall h :: h in r.segs ==> h.end <= r.next
    ensures Drain(r) == r.(segs := [])
    decreases |r.segs|
  {
    if r.segs != [] {
      DrainPassed(r.(segs := r.segs[1..]));
    }
  }

  /** When next stops at the beginning of a segment clipped at an earlier limit, more is written than counted. */
  lemma {:induction false} DrainWritesTooMuch(r: Reassembly, g: Seg)
    requires Ordered(r.segs) && g in r.segs && Clipped(g) && g.index == 0 && !CoveredBySome(r.segs, g)
    requires g.begin == r.next == |r.output.history| && g.begin < g.end < Edge(r) && !r.output.closed
    requires forall h :: h in r.segs ==> h.end <= g.end
    ensures Drain(r).next == g.end < |Drain(r).output.history|
    decreases |r.segs|
  {
    if r.segs[0] == g {
      DrainPassed(DrainStep(r));
    } else {
      assert Less(r.segs[0], g) && !Covers(r.segs[0], g);
      var t := r.(segs := r.segs[1..]);
      forall h | h in t.segs
        ensures h in r.segs && !Covers(h, g)
      {
      }
      DrainWritesTooMuch(t, g);
    }
  }

  /** If a byte is removed while a clipped segment lies uncovered, the truthful substring from next up to the
      segment makes the output longer than next. */
  lemma UncoveredCorrupts(r: Reassembly, len: nat, g: Seg, s: seq<byte>)
    requires Good(r, s) && |s| < TWO64 && Min(len, Buffered(r.output)) > 0
    requires g in r.segs && Clipped(g) && !CoveredBySome(r.segs, g)
    ensures g.begin <= |s| && Consistent(r.next, s[r.next..g.begin], false, s)
    ensures var t := Insert(PopOutput(r, len), r.next, s[r.next..g.begin], false);
            t.next < |t.output.history|
  {
    assert GoodSeg(g, Edge(r), s);
    var p := PopOutput(r, len);
    var data := s[r.next..g.begin];
    PushContinues(p.output, data, s);
    var t := WriteStep(p, data, |data|);
    assert Place(p, r.next, data) == t;
    DrainWritesTooMuch(t, g);
  }

  lemma SafePopThenRun(r: Reassembly, len: nat, more: seq<Event>, s: seq<byte>)
    requires Good(r, s) && PopSafe(r) && AllAllowed(PopOutput(r, len), more, s) && |s| < TWO64
    ensures OutputTrue(RunEvents(PopOutput(r, len), more), s)
  {
    var t := PopOutput(r, len);
    PopKeepsGood(r, len, s);
    NextIsGap(t, s);
    RunSimulates(t, Reference(Known(t), t.output.removed), more, s);
  }

  lemma UnsafePopThenInsert(r: Reassembly, len: nat, s: seq<byte>) returns (more: seq<Event>)
    requires Good(r, s) && !PopSafe(r) && Min(len, Buffered(r.output)) > 0 && |s| < TWO64
    ensures AllAllowed(PopOutput(r, len), more, s) && !OutputTrue(RunEvents(PopOutput(r, len), more), s)
  {
    var g :| g in r.segs && Clipped(g) && !CoveredBySome(r.segs, g);
    UncoveredCorrupts(r, len, g, s);
    hide Insert, Good, PopOutput;
    var e := InsertEvent(r.next, s[r.next..g.begin], false);
    more := [e];
    assert [e][1..] == [] && RunEvents(Step(PopOutput(r, len), e), []) == Step(PopOutput(r, len), e);
  }

  /** After any allowed run, removing bytes is safe exactly when no clipped segment lies uncovered: then, and only
      then, every allowed continuation keeps the output equal to the stream up to next. */
  lemma PopSafeIff(capacity: nat, events: seq<Event>, len: nat, s: seq<byte>)
    requires AllAllowed(NewReassembly(capacity), events, s) && |s| < TWO64
    requires Min(len, Buffered(RunEvents(NewReassembly(capacity), events).output)) > 0
    ensures var r := RunEvents(NewReassembly(capacity), events);
            var t := PopOutput(r, len);
            PopSafe(r) <==> forall more :: AllAllowed(t, more, s) ==> OutputTrue(RunEvents(t, more), s)
  {
    RunSimulatesNew(capacity, events, s);
    hide PopSafe, AllAllowed, RunEvents, OutputTrue, PopOutput, Good;
    var r := RunEvents(NewReassembly(capacity), events);
    if PopSafe(r) {
      forall more | AllAllowed(PopOutput(r, len), more, s)
        ensures OutputTrue(RunEvents(PopOutput(r, len), more), s)
      {
        SafePopThenRun(r, len, more, s);
      }
    } else {
      var more := UnsafePopThenInsert(r, len, s);
    }
  }

  /** Pops while a clipped segment is stored can be safe. With capacity 4 the truthful substrings "a" at 0, "cd"
      at 2 and "def" at 3 of the stream "abcdef" leave "def" clipped to one position but covered by "cd". */
  lemma ClippedButCovered(a: byte, b: byte, c: byte, d: byte, e: byte, f: byte)
    ensures var s := [a, b, c, d, e, f];
            var r := Insert(Insert(Insert(NewReassembly(4), 0, [a], false), 2, [c, d], false), 3, [d, e, f], false);
            && Consistent(0, [a], false, s) && Consistent(2, [c, d], false, s) && Consistent(3, [d, e, f], false, s)
            && r == Reassembly(StreamState(4, [a], 0, 0, false, false),
                               [SegValue(2, 4, [c, d], 0), SegValue(3, 4, [d, e, f], 0)], 1, 0, false)
            && PopSafe(r) && Clipped(r.segs[1])
  {
    var h, g := SegValue(2, 4, [c, d], 0), SegValue(3, 4, [d, e, f], 0);
    FirstByte(a);
    StoredFirst(a, h);
    StoredSecond(a, h, g);
    hide Insert, NewReassembly;
    var r3 := Reassembly(StreamState(4, [a], 0, 0, false, false), [h, g], 1, 0, false);
    assert h in r3.segs && Covers(h, g);
  }

  lemma FirstByte(a: byte)
    ensures Insert(NewReassembly(4), 0, [a], false)
         == Reassembly(StreamState(4, [a], 0, 0, false, false), [], 1, 0, false)
  {
    assert Push(NewStream(4), [a]).history == [a];
  }

  lemma StoredFirst(a: byte, h: Seg)
    requires h.begin == 2 && h.end == 4 && |h.data| == 2 && h.index == 0
    ensures var r := Reassembly(StreamState(4, [a], 0, 0, false, false), [], 1, 0, false);
            Insert(r, 2, h.data, false) == r.(segs := [h])
  {
  }

  lemma StoredSecond(a: byte, h: Seg, g: Seg)
    requires h.begin == 2 && h.end == 4 && |h.data| == 2 && h.index == 0
    requires g.begin == 3 && g.end == 4 && |g.data| == 3 && g.index == 0
    ensures var r := Reassembly(StreamState(4, [a], 0, 0, false, false), [h], 1, 0, false);
            Insert(r, 3, g.data, false) == r.(segs := [h, g])
  {
    var r := Reassembly(StreamState(4, [a], 0, 0, false, false), [h], 1, 0, false);
    assert Emplace([h], g) == [h] + Emplace([h][1..], g) == [h, g];
    assert Place(r, 3, g.data) == r.(segs := [h, g]);
  }

  // ----- closing -----

  /** The output is closed as soon as the end of the stream is known and reached. */
  predicate ClosedWhenComplete(r: Reassembly) {
    r.hasLast && r.next == r.last ==> r.output.closed
  }

  /** A truthful insert keeps "closed when complete" except in exactly one case: the end of the stream is
      first announced by a substring that was already written out entirely, and the early return skips
      the close. */
  lemma ClosedWhenCompleteKept(r: Reassembly, first: u64, data: seq<byte>, isLast: bool, s: seq<byte>)
    requires Good(r, s) && Consistent(first, data, isLast, s) && |s| < TWO64 && ClosedWhenComplete(r)
    ensures ClosedWhenComplete(Insert(r, first, data, isLast))
            <==> !(isLast && !r.hasLast && first < r.next && first + |data| <= r.next)
  {
    var noted := NoteLast(r, first, |data|, isLast);
    if Dropped(noted, first, |data|) {
      assert isLast && first > r.next ==> noted.last > noted.next;
    }
  }

  /** The exceptional case: "a" at 0, and again "a" at 0 now as the last substring. */
  lemma CloseSkipped(capacity: nat, a: byte)
    requires capacity > 0
    ensures var r := Insert(Insert(NewReassembly(capacity), 0, [a], false), 0, [a], true);
            Consistent(0, [a], true, [a]) && r.hasLast && r.next == r.last && !r.output.closed
  {
    var r0 := NewReassembly(capacity);
    assert Push(r0.output, [a]).history == [a];
    assert Insert(r0, 0, [a], false) == r0.(output := r0.output.(history := [a]), next := 1);
  }

  // ----- confluence -----

  datatype Substring = Substring(first: u64, data: seq<byte>, isLast: bool)

  function InsertAll(r: Reassembly, subs: seq<Substring>): Reassembly
    decreases |subs|
  {
    if subs == [] then r
    else InsertAll(Insert(r, subs[0].first, subs[0].data, subs[0].isLast), subs[1..])
  }

  ghost predicate AllConsistent(subs: seq<Substring>, s: seq<byte>) {
    forall x :: x in subs ==> Consistent(x.first, x.data, x.isLast, s)
  }

  /** The union of the substrings' intervals, cut at the given limit. */
  function Union(subs: seq<Substring>, limit: nat): set<int> {
    if subs == [] then {}
    else Interval(subs[0].first, Min(subs[0].first + |subs[0].data|, limit)) + Union(subs[1..], limit)
  }

  lemma ConsistentFirst(subs: seq<Substring>, s: seq<byte>)
    requires subs != [] && AllConsistent(subs, s)
    ensures Consistent(subs[0].first, subs[0].data, subs[0].isLast, s) && AllConsistent(subs[1..], s)
  {
    hide Consistent;
  }

  lemma UnionNone(k: set<int>, limit: nat)
    ensures k == k + Union([], limit)
  {
  }

  lemma UnionFirst(subs: seq<Substring>, limit: nat)
    requires subs != []
    ensures Union(subs, limit)
         == Interval(subs[0].first, Min(subs[0].first + |subs[0].data|, limit)) + Union(subs[1..], limit)
  {
  }

  lemma {:induction false} InsertAllRefines(r: Reassembly, subs: seq<Substring>, s: seq<byte>)
    requires Good(r, s) && AllConsistent(subs, s) && |s| < TWO64
    ensures Good(InsertAll(r, subs), s) && Edge(InsertAll(r, subs)) == Edge(r)
    ensures Known(InsertAll(r, subs)) == Known(r) + Union(subs, Edge(r))
    decreases |subs|
  {
    hide Insert, Good, Known, Edge, Union, Interval, Consistent, AllConsistent;
    if subs == [] {
      UnionNone(Known(r), Edge(r));
    } else {
      var x := subs[0];
      ConsistentFirst(subs, s);
      UnionFirst(subs, Edge(r));
      InsertRefines(r, x.first, x.data, x.isLast, s);
      InsertAllRefines(Insert(r, x.first, x.data, x.isLast), subs[1..], s);
      UnionAssoc(Known(r), Interval(x.first, Min(x.first + |x.data|, Edge(r))), Union(subs[1..], Edge(r)));
    }
  }

  lemma UnionAssoc(a: set<int>, b: set<int>, c: set<int>)
    ensures (a + b) + c == a + (b + c)
  {
  }

  /** Without pops, the next position, the output and the number of stored bytes depend only on the
      union of the inserted intervals cut at the capacity. */
  lemma Confluence(capacity: nat, subs: seq<Substring>, others: seq<Substring>, s: seq<byte>)
    requires AllConsistent(subs, s) && AllConsistent(others, s) && |s| < TWO64
    requires Union(subs, capacity) == Union(others, capacity)
    ensures var r, t := InsertAll(NewReassembly(capacity), subs), InsertAll(NewReassembly(capacity), others);
            r.next == t.next && r.output.history == t.output.history && Pending(r) == Pending(t)
  {
    InsertAllRefines(NewReassembly(capacity), subs, s);
    InsertAllRefines(NewReassembly(capacity), others, s);
    SameKnown(InsertAll(NewReassembly(capacity), subs), InsertAll(NewReassembly(capacity), others), s);
  }

  /** Two states that satisfy the invariant for one stream and know the same positions look the same. */
  lemma SameKnown(r: Reassembly, t: Reassembly, s: seq<byte>)
    requires Good(r, s) && Good(t, s) && Known(r) == Known(t)
    ensures r.next == t.next && r.output.history == t.output.history && Pending(r) == Pending(t)
  {
    FirstGap(r, s);
    FirstGap(t, s);
  }

  lemma {:induction false} InUnion(subs: seq<Substring>, limit: nat, i: int)
    ensures i in Union(subs, limit)
            <==> exists x :: x in subs && x.first <= i < Min(x.first + |x.data|, limit)
  {
    if subs != [] {
      InUnion(subs[1..], limit, i);
    }
  }

  /** In particular any permutation or repetition of the same substrings gives the same result. */
  lemma OrderIrrelevant(capacity: nat, subs: seq<Substring>, others: seq<Substring>, s: seq<byte>)
    requires AllConsistent(subs, s) && |s| < TWO64
    requires forall x :: x in subs <==> x in others
    ensures var r, t := InsertAll(NewReassembly(capacity), subs), InsertAll(NewReassembly(capacity), others);
            r.next == t.next && r.output.history == t.output.history && Pending(r) == Pending(t)
  {
    forall i
      ensures i in Union(subs, capacity) <==> i in Union(others, capacity)
    {
      InUnion(subs, capacity, i);
      InUnion(others, capacity, i);
    }
    assert Union(subs, capacity) == Union(others, capacity);
    Confluence(capacity, subs, others, s);
  }
}
