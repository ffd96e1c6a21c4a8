/** When the receiver's acknowledgment number goes back. */
module AckOrder {
  import opened Numbers
  import opened Messages
  import opened Wrapping
  import opened ReassemblerModel
  import opened ReassemblerTheory
  import opened Connection
  import opened ConnectionTheory
  import opened ConnectionRuns
  import Stream = StreamModel
  import Rx = ReceiverModel
  import Tx = SenderTheory

  /** Where a receiver that has seen SYN puts the payload of a segment. */
  function IndexOf(r: Rx.Receiver, m: SenderMessage): u64 {
    if m.syn then 0 else U64(Unwrap(m.seqno, r.isn, r.maxAbsSeqno) - 1)
  }

  lemma IndexOfSyn(r: Rx.Receiver, m: SenderMessage)
    ensures m.syn ==> IndexOf(r, m) == 0
  {
  }

  /** A receiver that counts FIN takes it back when SYN comes again with nothing new, which resets the flag, or when
      bytes are stored beyond the first missing one. */
  predicate LowersAck(r: Rx.Receiver, m: SenderMessage) {
    && r.hasFin && Pending(r.reassembly) == 0
    && if m.syn then !m.fin && Min(|m.payload|, Edge(r.reassembly)) <= r.reassembly.next
       else m.payload != [] && r.reassembly.next < IndexOf(r, m) < Edge(r.reassembly)
  }

  /** With nothing pending, what an insert does to next and to the number of stored bytes. */
  lemma InsertIntoNothing(r: Reassembly, first: u64, data: seq<byte>, isLast: bool, s: seq<byte>)
    requires Good(r, s) && Pending(r) == 0 && Consistent(first, data, isLast, s) && |s| < TWO64
    ensures var q := Insert(r, first, data, isLast);
            var e := Min(first + |data|, Edge(r));
            if first <= r.next then q.next == Max(r.next, e) && Pending(q) == 0
            else q.next == r.next && Pending(q) == Max(0, e - first)
  {
    hide Insert, Good, Consistent, Covered, Interval, Known, Pending;
    var q := Insert(r, first, data, isLast);
    var e := Min(first + |data|, Edge(r));
    InsertRefines(r, first, data, isLast, s);
    NothingKnownBeyond(r);
    FirstGap(q, s);
    KnownIs(r.next, first, e);
    NextIs(q, if first <= r.next then Max(r.next, e) else r.next);
  }

  lemma NothingKnownBeyond(r: Reassembly)
    requires Pending(r) == 0
    ensures Known(r) == Interval(0, r.next)
  {
    assert Covered(r.segs) == {};
  }

  /** The union of [0, next) and [first, e). */
  lemma KnownIs(next: nat, first: nat, e: int)
    ensures var k := Interval(0, next) + Interval(first, e);
            var n := if first <= next then Max(next, e) else next;
            && n !in k && (forall i :: 0 <= i < n ==> i in k)
            && |k| == n + (if first <= next then 0 else Max(0, e - first))
  {
    if first <= next {
      IntervalSize(0, Max(next, e));
      IntervalsMeet(next, first, e);
    } else {
      IntervalSize(0, next);
      IntervalSize(first, e);
      assert Interval(0, next) !! Interval(first, e);
    }
  }

  lemma IntervalsMeet(next: nat, first: nat, e: int)
    requires first <= next
    ensures Interval(0, next) + Interval(first, e) == Interval(0, Max(next, e))
  {
  }

  lemma NextIs(q: Reassembly, n: nat)
    requires q.next !in Known(q) && forall i :: 0 <= i < q.next ==> i in Known(q)
    requires n !in Known(q) && forall i :: 0 <= i < n ==> i in Known(q)
    ensures q.next == n
  {
  }

  /** A segment from the network is truthful at the index it is put at. */
  lemma SegmentTruthful(y: System, m: SenderMessage)
    requires Inv(y) && y.receiver.isInit && m in y.segments
    ensures Consistent(IndexOf(y.receiver, m), m.payload, m.fin, SentBytes(y.sender))
  {
    hide Good, Unclipped, Tx.Sound, AcksOk, WindowOk, OutstandingSent, Wrap, Unwrap, U64, Reach;
    var r := y.receiver;
    var sent := SentBytes(y.sender);
    assert TrueSegment(m, y.sender, Reach(r.reassembly));
    var a: nat :| SegmentOk(m, a, y.sender.isn, sent, y.sender.finSent, Reach(r.reassembly));
    if !m.syn {
      assert a < TWO31 && r.maxAbsSeqno < TWO31;
      UnwrapWrap(a, r.isn, r.maxAbsSeqno);
      IndexFits(a);
    }
  }

  /** Delivering a segment to a receiver that has seen SYN. */
  lemma DeliveryMovesAck(y: System, m: SenderMessage)
    requires Inv(y) && Enabled(y, DeliverSegment(m)) && y.receiver.isInit
    ensures Rx.AbsAckno(Rx.Receive(y.receiver, m)) < Rx.AbsAckno(y.receiver) <==> LowersAck(y.receiver, m)
  {
    var r, t := y.receiver, Rx.Receive(y.receiver, m);
    var sent := SentBytes(y.sender);
    SegmentInserted(y, m);
    SegmentTruthful(y, m);
    assert !m.rst && t.reassembly == Insert(r.reassembly, IndexOf(r, m), m.payload, m.fin) by {
      assert TrueSegment(m, y.sender, Reach(r.reassembly));
      hide Insert, Wrap, Unwrap;
    }
    assert Good(r.reassembly, sent);
    assert |sent| < TWO64;
    hide Inv, Insert, Rx.Receive, Good, Consistent, IndexOf, Enabled, Wrap, Unwrap;
    if Pending(r.reassembly) == 0 {
      InsertIntoNothing(r.reassembly, IndexOf(r, m), m.payload, m.fin, sent);
      IndexOfSyn(r, m);
    }
  }

  /** The acknowledgment number of a receiver that has seen SYN goes back in exactly these cases. */
  lemma AckGoesBackIff(y: System, a: Action)
    requires Inv(y) && Enabled(y, a) && y.receiver.isInit
    ensures Rx.AbsAckno(Next(y, a).receiver) < Rx.AbsAckno(y.receiver)
            <==> a.DeliverSegment? && LowersAck(y.receiver, a.segment)
  {
    hide Inv, Tx.Step, Rx.Receive, LowersAck, Wrap, Unwrap;
    if a.DeliverSegment? {
      DeliveryMovesAck(y, a.segment);
    }
  }

  /** For instance: SYN, FIN of an empty stream, and SYN again. */
  lemma SynLowersAck(isn: u32)
    ensures var r := Rx.Receive(Opened(isn), SenderMessage(Wrap(1, isn), false, [], true, false));
            Rx.AbsAckno(r) == 2 && Rx.AbsAckno(Rx.Receive(r, Syn(isn))) == 1
  {
    UnwrapWrap(1, isn, 0);
    hide Wrap, Unwrap;
    var o := Stream.NewStream(10);
    assert Stream.Push(o, []) == o;
    var r := Rx.Receive(Opened(isn), SenderMessage(Wrap(1, isn), false, [], true, false));
    assert r.reassembly == Reassembly(Stream.Close(o), [], 0, 0, true);
    assert Insert(r.reassembly, 0, [], false) == r.reassembly;
  }
}
