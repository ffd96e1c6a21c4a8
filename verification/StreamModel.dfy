/** What a bounded byte stream is: an unbounded history of which a suffix is still buffered. */
module StreamModel {
  import opened Bytes
  import opened Numbers

  /** Abstract state. `history` is everything ever accepted, `removed` how much of it has left
      the buffer, `popped` what the stream reports as popped. */
  datatype StreamState = StreamState(capacity: nat, history: seq<byte>, removed: nat, popped: nat,
                                     closed: bool, error: bool)
  {
    ghost predicate Ok() {
      removed <= |history| <= removed + capacity
    }
  }

  type Stream = s: StreamState | s.Ok() witness StreamState(0, [], 0, 0, false, false)

  function NewStream(capacity: nat): Stream {
    StreamState(capacity, [], 0, 0, false, false)
  }

  function Buffer(s: Stream): seq<byte> {
    s.history[s.removed..]
  }

  function Buffered(s: Stream): nat {
    |s.history| - s.removed
  }

  function Available(s: Stream): nat {
    s.capacity - Buffered(s)
  }

  predicate Finished(s: Stream) {
    s.closed && Buffered(s) == 0
  }

  /** Accept the longest prefix of data that fits, unless closed. */
  function Push(s: Stream, data: seq<byte>): Stream {
    if s.closed then s
    else s.(history := s.history + data[..Min(|data|, Available(s))])
  }

  function Close(s: Stream): Stream {
    s.(closed := true)
  }

  function SetError(s: Stream): Stream {
    s.(error := true)
  }

  /** A pop past the end empties the buffer without being counted. */
  function Pop(s: Stream, len: nat): Stream {
    if len <= Buffered(s) then s.(removed := s.removed + len, popped := s.popped + len)
    else s.(removed := |s.history|)
  }

  /** What the read helper takes: the first bytes of the buffer, at most len of them. */
  function Front(s: Stream, len: nat): seq<byte> {
    Buffer(s)[..Min(len, Buffered(s))]
  }

  /** data is what stream s holds from position first on. */
  ghost predicate Agrees(data: seq<byte>, first: int, s: seq<byte>) {
    data == [] || (0 <= first && first + |data| <= |s| && data == s[first..first + |data|])
  }

  lemma AgreesSlice(data: seq<byte>, first: int, s: seq<byte>, a: nat, b: nat)
    requires Agrees(data, first, s) && a <= b <= |data| && data != []
    ensures 0 <= first && first + b <= |s| && data[a..b] == s[first + a..first + b]
  {
    var w := s[first..first + |data|];
    forall i | 0 <= i < b - a
      ensures w[a..b][i] == s[first + a..first + b][i]
    {
    }
  }

  /** Slices of a prefix, and a prefix with the slice that follows it. */
  lemma SliceOfPrefix(s: seq<byte>, n: nat, a: nat, b: nat)
    requires a <= b <= n <= |s|
    ensures s[..n][a..b] == s[a..b]
  {
  }

  lemma PrefixAndSlice(s: seq<byte>, n: nat, k: nat)
    requires n + k <= |s|
    ensures s[..n] + s[n..][..k] == s[..n + k]
  {
  }

  lemma AgreesPrefix(data: seq<byte>, first: int, s: seq<byte>, t: seq<byte>)
    requires Agrees(data, first, s) && s <= t
    ensures Agrees(data, first, t)
  {
    if data != [] {
      assert s[first..first + |data|] == t[first..first + |data|];
    }
  }

  // ----- the stream as an object: where the buffer starts in the string -----

  /** A stream and the position `begin` of its buffer in the string that holds it. The bytes before it are the
      last ones removed. */
  datatype Placed = Placed(stream: Stream, begin: nat) {
    ghost predicate Ok() {
      begin <= stream.removed && begin + Buffered(stream) <= stream.capacity < TWO64 - 1
    }
  }

  type PlacedStream = p: Placed | p.Ok() witness Placed(NewStream(0), 0)

  /** Pushing moves the buffer to the front when the data does not fit behind it. */
  function PushAt(p: PlacedStream, data: seq<byte>): PlacedStream {
    if p.stream.closed then p
    else if p.begin + Buffered(p.stream) + |data| > p.stream.capacity then Placed(Push(p.stream, data), 0)
    else Placed(Push(p.stream, data), p.begin)
  }

  /** Does the sum that pop compares with the end of the buffer overflow 64 bits? */
  predicate Wraps(p: PlacedStream, len: u64) {
    p.begin + len >= TWO64
  }

  /** k removed bytes are in the buffer again, and the count goes back by k, modulo 2^64. */
  function GiveBack(s: Stream, k: nat): Stream
    requires k <= s.removed && Buffered(s) + k <= s.capacity && k <= TWO64
  {
    s.(removed := s.removed - k, popped := if s.popped >= k then s.popped - k else s.popped + TWO64 - k)
  }

  /** What pop does for every 64-bit length. */
  function PopAt(p: PlacedStream, len: u64): PlacedStream {
    if Wraps(p, len) then Placed(GiveBack(p.stream, TWO64 - len), p.begin + len - TWO64)
    else Placed(Pop(p.stream, len), p.begin + Min(len, Buffered(p.stream)))
  }

  // ----- whole runs -----

  datatype StreamOp = PushOp(data: seq<byte>) | PopOp(len: u64) | CloseOp

  function Apply(p: PlacedStream, op: StreamOp): PlacedStream {
    match op
    case PushOp(data) => PushAt(p, data)
    case PopOp(len) => PopAt(p, len)
    case CloseOp => p.(stream := Close(p.stream))
  }

  function Run(p: PlacedStream, ops: seq<StreamOp>): PlacedStream
    decreases |ops|
  {
    if ops == [] then p else Run(Apply(p, ops[0]), ops[1..])
  }

  /** No pop of the run overflows. */
  predicate NoneWraps(p: PlacedStream, ops: seq<StreamOp>)
    decreases |ops|
  {
    ops == [] || ((ops[0].PopOp? ==> !Wraps(p, ops[0].len)) && NoneWraps(Apply(p, ops[0]), ops[1..]))
  }

  /** Every pop of the run asks for no more than is buffered. */
  predicate LegalPops(p: PlacedStream, ops: seq<StreamOp>)
    decreases |ops|
  {
    ops == [] ||
    ((ops[0].PopOp? ==> ops[0].len <= Buffered(p.stream)) && LegalPops(Apply(p, ops[0]), ops[1..]))
  }

  /** The bytes the reader took from the front, in order. */
  function Taken(p: PlacedStream, ops: seq<StreamOp>): seq<byte>
    decreases |ops|
  {
    if ops == [] then [] else TakenBy(p.stream, ops[0]) + Taken(Apply(p, ops[0]), ops[1..])
  }

  function TakenBy(s: Stream, op: StreamOp): seq<byte> {
    if op.PopOp? then Front(s, op.len) else []
  }

  /** The prefixes of the pushed strings that fitted before the stream was closed, in order. */
  function Accepted(p: PlacedStream, ops: seq<StreamOp>): seq<byte>
    decreases |ops|
  {
    if ops == [] then [] else AcceptedBy(p.stream, ops[0]) + Accepted(Apply(p, ops[0]), ops[1..])
  }

  function AcceptedBy(s: Stream, op: StreamOp): seq<byte> {
    if op.PushOp? && !s.closed then op.data[..Min(|op.data|, Available(s))] else []
  }

  /** One operation is first in, first out exactly when it is not a pop that overflows. */
  lemma FifoStepIff(p: PlacedStream, op: StreamOp)
    ensures Buffer(p.stream) + AcceptedBy(p.stream, op) == TakenBy(p.stream, op) + Buffer(Apply(p, op).stream)
            <==> !(op.PopOp? && Wraps(p, op.len))
  {
    match op
    case PushOp(data) => FifoPush(p, data);
    case PopOp(len) => FifoPopIff(p, len);
    case CloseOp =>
  }

  lemma FifoPush(p: PlacedStream, data: seq<byte>)
    ensures Buffer(p.stream) + AcceptedBy(p.stream, PushOp(data)) == Buffer(PushAt(p, data).stream)
  {
    var s := p.stream;
    var got := AcceptedBy(s, PushOp(data));
    if s.closed {
      assert Buffer(s) + [] == Buffer(s);
    } else {
      assert (s.history + got)[s.removed..] == s.history[s.removed..] + got;
    }
  }

  lemma FifoPopIff(p: PlacedStream, len: u64)
    ensures Buffer(p.stream) == Front(p.stream, len) + Buffer(PopAt(p, len).stream) <==> !Wraps(p, len)
  {
    var s := p.stream;
    if Wraps(p, len) {
      assert |Buffer(PopAt(p, len).stream)| > |Buffer(s)|;
    } else if len <= Buffered(s) {
      PrefixAndRest(s.history, s.removed, len);
    } else {
      assert Buffer(s) + [] == Buffer(s);
    }
  }

  lemma PrefixAndRest(h: seq<byte>, r: nat, k: nat)
    requires r + k <= |h|
    ensures h[r..] == h[r..][..k] + h[r + k..]
  {
  }

  /** First in, first out over any run in which no pop overflows: what was buffered plus what was accepted is what was
      taken plus what is buffered now. */
  lemma {:induction false} Fifo(p: PlacedStream, ops: seq<StreamOp>)
    requires NoneWraps(p, ops)
    ensures Buffer(p.stream) + Accepted(p, ops) == Taken(p, ops) + Buffer(Run(p, ops).stream)
    decreases |ops|
  {
    if ops != [] {
      var t := Apply(p, ops[0]);
      FifoStepIff(p, ops[0]);
      hide Buffer, AcceptedBy, TakenBy, Apply, Wraps;
      Fifo(t, ops[1..]);
      ConcatChain(Buffer(p.stream), AcceptedBy(p.stream, ops[0]), Accepted(t, ops[1..]),
                  TakenBy(p.stream, ops[0]), Buffer(t.stream), Taken(t, ops[1..]), Buffer(Run(t, ops[1..]).stream));
    }
  }

  /** The counters agree: pushed = popped + buffered, buffered + available = capacity. */
  predicate CountersAgree(s: Stream) {
    |s.history| == s.popped + Buffered(s) && Buffered(s) + Available(s) == s.capacity
  }

  /** A single pop of any length keeps the counters in agreement exactly when it is legal, finds nothing to drop, or
      overflows. */
  lemma PopCounters(p: PlacedStream, len: u64)
    requires CountersAgree(p.stream)
    ensures CountersAgree(PopAt(p, len).stream)
            <==> len <= Buffered(p.stream) || Buffered(p.stream) == 0 || Wraps(p, len)
  {
  }

  /** Popping two bytes from a stream that holds one. */
  lemma PopPastEnd(capacity: nat, b: byte)
    requires 0 < capacity < TWO64 - 1
    ensures var p := PushAt(Placed(NewStream(capacity), 0), [b]);
            var q := PopAt(p, 2).stream;
            CountersAgree(p.stream) && Buffered(q) == 0 && q.popped == 0 && !CountersAgree(q)
  {
    assert Push(NewStream(capacity), [b]).history == [b];
  }

  /** Popping 2^64 - 1 bytes after one byte has been popped puts that byte back into the buffer. */
  lemma PopBringsBack(capacity: nat, b: byte)
    requires 0 < capacity < TWO64 - 1
    ensures var p := PopAt(PushAt(Placed(NewStream(capacity), 0), [b]), 1);
            var q := PopAt(p, TWO64 - 1);
            Buffer(p.stream) == [] && p.stream.popped == 1
            && Buffer(q.stream) == [b] && q.stream.popped == 0 && q.begin == 0
  {
    assert Push(NewStream(capacity), [b]).history == [b];
  }

  /** Over runs of legal pops from a fresh stream the counters always agree, and `popped` is the number
      of bytes taken. */
  lemma {:induction false} RunCounters(p: PlacedStream, ops: seq<StreamOp>)
    requires CountersAgree(p.stream) && LegalPops(p, ops)
    ensures var t := Run(p, ops).stream;
            && CountersAgree(t) && t.capacity == p.stream.capacity
            && t.popped == p.stream.popped + |Taken(p, ops)|
            && |t.history| == |p.stream.history| + |Accepted(p, ops)|
    decreases |ops|
  {
    if ops != [] {
      CountStep(p, ops[0]);
      hide Apply, CountersAgree, TakenBy, AcceptedBy;
      RunCounters(Apply(p, ops[0]), ops[1..]);
    }
  }

  lemma CountStep(p: PlacedStream, op: StreamOp)
    requires CountersAgree(p.stream) && (op.PopOp? ==> op.len <= Buffered(p.stream))
    ensures var t := Apply(p, op).stream;
            && CountersAgree(t) && t.capacity == p.stream.capacity
            && t.popped == p.stream.popped + |TakenBy(p.stream, op)|
            && |t.history| == |p.stream.history| + |AcceptedBy(p.stream, op)|
  {
  }
}
