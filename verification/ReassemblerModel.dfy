/** What the reassembler computes: stored segments in set order, and the insert case split with its drain. */
module ReassemblerModel {
  import opened Numbers
  import opened StreamModel
  import Out = StreamModel

  /** A stored substring for the stream positions [begin, end). Its text starts at data[index] and may
      be longer than end - begin when it was clipped at the capacity. */
  datatype SegValue = SegValue(begin: nat, end: nat, data: seq<byte>, index: nat)

  type Seg = g: SegValue | g.begin <= g.end && g.index + (g.end - g.begin) <= |g.data|
    witness SegValue(0, 0, [], 0)

  /** Set order: smaller begin first, larger end first. */
  predicate Less(a: Seg, b: Seg) {
    a.begin < b.begin || (a.begin == b.begin && a.end > b.end)
  }

  /** std::set insertion: keeps the order, and ignores an element equivalent to a stored one. */
  function Emplace(segs: seq<Seg>, g: Seg): seq<Seg> {
    if segs == [] || Less(g, segs[0]) then [g] + segs
    else if Less(segs[0], g) then [segs[0]] + Emplace(segs[1..], g)
    else segs
  }

  ghost predicate Ordered(segs: seq<Seg>) {
    forall i, j :: 0 <= i < j < |segs| ==> Less(segs[i], segs[j])
  }

  lemma {:induction false} EmplaceElements(segs: seq<Seg>, g: Seg)
    ensures forall h :: h in Emplace(segs, g) ==> h in segs || h == g
    ensures forall h :: h in segs ==> h in Emplace(segs, g)
  {
    if segs != [] && !Less(g, segs[0]) && Less(segs[0], g) {
      EmplaceElements(segs[1..], g);
    }
  }

  lemma {:induction false} EmplaceOrdered(segs: seq<Seg>, g: Seg)
    requires Ordered(segs)
    ensures Ordered(Emplace(segs, g))
  {
    EmplaceElements(segs, g);
    if segs != [] && !Less(g, segs[0]) && Less(segs[0], g) {
      EmplaceElements(segs[1..], g);
      EmplaceOrdered(segs[1..], g);
      var rest := Emplace(segs[1..], g);
      forall h | h in rest
        ensures Less(segs[0], h)
      {
      }
    }
  }

  datatype Reassembly = Reassembly(output: Stream, segs: seq<Seg>, next: nat, last: nat, hasLast: bool)

  function NewReassembly(capacity: nat): Reassembly {
    Reassembly(NewStream(capacity), [], 0, 0, false)
  }

  /** The bytes written out for a stored segment that contains the position next. */
  function Piece(g: Seg, next: nat): seq<byte>
    requires g.begin <= next < g.end
  {
    if next == g.begin && g.index == 0 then g.data
    else g.data[next - g.begin + g.index..][..g.end - next]
  }

  /** Push data to the output and advance next. */
  function WriteStep(r: Reassembly, data: seq<byte>, advance: nat): Reassembly {
    r.(output := Push(r.output, data), next := r.next + advance)
  }

  /** Write out and erase the first stored segment. */
  function DrainStep(r: Reassembly): Reassembly
    requires r.segs != [] && r.segs[0].begin <= r.next < r.segs[0].end
  {
    WriteStep(r, Piece(r.segs[0], r.next), r.segs[0].end - r.next).(segs := r.segs[1..])
  }

  /** The loop over the stored segments, always at the first one. */
  function Drain(r: Reassembly): Reassembly
    decreases |r.segs|
  {
    if r.segs == [] || r.next < r.segs[0].begin then r
    else if r.next >= r.segs[0].end then Drain(r.(segs := r.segs[1..]))
    else Drain(DrainStep(r))
  }

  function SetError(r: Reassembly): Reassembly {
    r.(output := Out.SetError(r.output))
  }

  function CloseIfComplete(r: Reassembly): Reassembly {
    if r.hasLast && r.next == r.last then r.(output := Close(r.output)) else r
  }

  function NoteLast(r: Reassembly, first: u64, len: nat, isLast: bool): Reassembly {
    if isLast then r.(last := U64(first + len), hasLast := true) else r
  }

  /** Is the call dropped by one of the two early returns? */
  predicate Dropped(r: Reassembly, first: u64, len: nat) {
    if first < r.next then first + len <= r.next
    else first != r.next && first >= r.next + Available(r.output)
  }

  /** A substring that starts at or before next: write out what is new, up to the room there is. */
  function WriteOut(r: Reassembly, first: u64, data: seq<byte>): Reassembly
    requires first <= r.next <= first + |data|
  {
    var avail := Available(r.output);
    if first < r.next then
      if first + |data| >= r.next + avail then
        WriteStep(r, data[r.next - first..][..avail], avail).(segs := [])
      else
        WriteStep(r, data[r.next - first..], first + |data| - r.next)
    else if |data| <= avail then
      WriteStep(r, data, |data|)
    else
      WriteStep(r, data, avail).(segs := [])
  }

  /** The segment stored for a substring that starts beyond next, clipped where the room ends. */
  function NewSegment(r: Reassembly, first: u64, data: seq<byte>): Seg
    requires r.next < first < r.next + Available(r.output)
  {
    var edge := r.next + Available(r.output);
    SegValue(first, if edge < first + |data| then edge else first + |data|, data, 0)
  }

  function Store(r: Reassembly, first: u64, data: seq<byte>): Reassembly
    requires r.next < first < r.next + Available(r.output)
  {
    r.(segs := Emplace(r.segs, NewSegment(r, first, data)))
  }

  /** The effect of the case split, before the loop, on a call that is not dropped. */
  function Place(r: Reassembly, first: u64, data: seq<byte>): Reassembly
    requires !Dropped(r, first, |data|)
  {
    if first <= r.next then WriteOut(r, first, data) else Store(r, first, data)
  }

  function Insert(r: Reassembly, first: u64, data: seq<byte>, isLast: bool): Reassembly {
    var noted := NoteLast(r, first, |data|, isLast);
    if Dropped(noted, first, |data|) then noted
    else CloseIfComplete(Drain(Place(noted, first, data)))
  }

  predicate Within(a: int, i: int, b: int) {
    a <= i < b
  }

  /** Stream positions [a, b). */
  function Interval(a: int, b: int): set<int> {
    set i: int | a <= i < b && Within(a, i, b)
  }

  /** Positions covered by the stored segments. */
  function Covered(segs: seq<Seg>): set<int> {
    if segs == [] then {} else Interval(segs[0].begin, segs[0].end) + Covered(segs[1..])
  }

  /** Positions known to the reassembler: written out or stored. */
  function Known(r: Reassembly): set<int> {
    Interval(0, r.next) + Covered(r.segs)
  }

  /** How many distinct positions are stored. */
  function Pending(r: Reassembly): nat {
    |Covered(r.segs)|
  }

  lemma IntervalSize(a: int, b: int)
    ensures |Interval(a, b)| == Max(0, b - a)
    decreases b - a
  {
    if a < b {
      IntervalSize(a, b - 1);
      assert Interval(a, b) == Interval(a, b - 1) + {b - 1};
    } else {
      assert Interval(a, b) == {};
    }
  }

  lemma {:induction false} InCovered(segs: seq<Seg>, i: int)
    ensures i in Covered(segs) <==> exists g :: g in segs && g.begin <= i < g.end
  {
    if segs != [] {
      InCovered(segs[1..], i);
    }
  }

  lemma {:induction false} CoveredAppend(segs: seq<Seg>, g: Seg)
    ensures Covered(segs + [g]) == Covered(segs) + Interval(g.begin, g.end)
  {
    if segs != [] {
      CoveredAppend(segs[1..], g);
      assert (segs + [g])[1..] == segs[1..] + [g];
    }
  }
}
