/** Two peers that exchange bytes: every message travels as an IPv4 datagram with a TCP segment. */
module DuplexWire {
  import opened Numbers
  import opened Messages
  import opened PeerModel
  import opened PeerTheory
  import opened Connection
  import opened ConnectionTheory
  import opened Duplex
  import Wire = TcpOverIpModel
  import Seg = SegmentModel

  /** Something happens at a peer, or bytes arrive at one. */
  datatype WireAction = Local(action: PairAction) | BytesToA(bytes: seq<byte>) | BytesToB(bytes: seq<byte>)

  /** The message a peer with configuration cfg finds in the bytes, if any. */
  function Arrived(cfg: Wire.Config, bs: seq<byte>): Option<TCPMessage> {
    Wire.ReceiveBytes(cfg, bs).1
  }

  /** bs is what the peer with configuration cfg puts on the wire for one of its messages. */
  ghost predicate SentAs(cfg: Wire.Config, ms: set<TCPMessage>, bs: seq<byte>) {
    exists m :: m in ms && bs == Wire.WrapBytes(cfg, m)
  }

  predicate Quiet(x: PairAction) {
    !x.action.Incoming?
  }

  /** The two assumptions about messages without acknowledgment number and about early data, for a message at peer
      a. */
  predicate Careful(d: Pair, m: TCPMessage) {
    Active(d.a) ==>
      CarefulAck(Forward(d), DeliverAck(m.receiver)) && CarefulData(Backward(d), DeliverSegment(m.sender))
  }

  function TakeIn(d: Pair, cfg: Wire.Config, bs: seq<byte>): Pair {
    match Arrived(cfg, bs)
    case None => d
    case Some(m) => StepA(d, Incoming(m))
  }

  /** `cfg` is the configuration of peer a; that of b is its mirror image. */
  function WireNext(d: Pair, cfg: Wire.Config, x: WireAction): Pair {
    match x
    case Local(action) => Duplex.Next(d, action)
    case BytesToA(bs) => TakeIn(d, cfg, bs)
    case BytesToB(bs) => Flip(TakeIn(Flip(d), Wire.Mirror(cfg), bs))
  }

  /** The network delivers what the other peer has sent, in any order and number, or any bytes in which the peer finds
      no message, such as damaged ones and those of other connections. */
  ghost predicate Deliverable(d: Pair, cfg: Wire.Config, bs: seq<byte>) {
    Arrived(cfg, bs) == None
    || (SentAs(Wire.Mirror(cfg), d.fromB, bs) && Careful(d, Arrived(cfg, bs).value))
  }

  ghost predicate WireEnabled(d: Pair, cfg: Wire.Config, x: WireAction) {
    match x
    case Local(action) => Quiet(action) && Duplex.Enabled(d, action)
    case BytesToA(bs) => Deliverable(d, cfg, bs)
    case BytesToB(bs) => Deliverable(Flip(d), Wire.Mirror(cfg), bs)
  }

  function WireExec(d: Pair, cfg: Wire.Config, xs: seq<WireAction>): Pair
    decreases |xs|
  {
    if xs == [] then d else WireExec(WireNext(d, cfg, xs[0]), cfg, xs[1..])
  }

  ghost predicate AllWireEnabled(d: Pair, cfg: Wire.Config, xs: seq<WireAction>)
    decreases |xs|
  {
    xs == [] || (WireEnabled(d, cfg, xs[0]) && AllWireEnabled(WireNext(d, cfg, xs[0]), cfg, xs[1..]))
  }

  /** No message of the system carries a reset, and all fit a datagram. */
  lemma MessagesAreClean(d: Pair, m: TCPMessage)
    requires PairInv(d) && m in d.fromB
    ensures !m.sender.rst && !m.receiver.rst && Wire.FitsDatagram(m) && Seg.Merged(m) == m
  {
    var y, z := Backward(d), Forward(d);
    assert m.sender in y.segments && m.receiver in z.acks;
    assert TrueSegment(m.sender, y.sender, Reach(y.receiver.reassembly));
    assert TrueAck(m.receiver, z.sender, z.honest, z.receiver.reassembly);
  }

  /** So what was sent is what arrives. */
  lemma ArrivesAsSent(d: Pair, cfg: Wire.Config, bs: seq<byte>)
    requires PairInv(d) && !cfg.listening
    ensures SentAs(Wire.Mirror(cfg), d.fromB, bs) ==> Arrived(cfg, bs).Some? && Arrived(cfg, bs).value in d.fromB
  {
    hide PairInv, Wire.WrapBytes, Wire.ReceiveBytes;
    if SentAs(Wire.Mirror(cfg), d.fromB, bs) {
      var m :| m in d.fromB && bs == Wire.WrapBytes(Wire.Mirror(cfg), m);
      MessagesAreClean(d, m);
      Wire.RoundTrip(Wire.Mirror(cfg), m);
      assert Wire.Mirror(Wire.Mirror(cfg)) == cfg;
    }
  }

  lemma TakeInInv(d: Pair, cfg: Wire.Config, bs: seq<byte>)
    requires PairInv(d) && !cfg.listening && Deliverable(d, cfg, bs)
    ensures PairInv(TakeIn(d, cfg, bs))
  {
    hide PairInv, StepA, Arrived, SentAs, Active;
    if Arrived(cfg, bs).Some? {
      ArrivesAsSent(d, cfg, bs);
      StepAInv(d, Incoming(Arrived(cfg, bs).value));
    }
  }

  lemma {:induction false} WireExecInv(d: Pair, cfg: Wire.Config, xs: seq<WireAction>)
    requires PairInv(d) && !cfg.listening && AllWireEnabled(d, cfg, xs)
    ensures PairInv(WireExec(d, cfg, xs))
    decreases |xs|
  {
    if xs != [] {
      WireNextInv(d, cfg, xs[0]);
      hide PairInv, WireNext, WireEnabled;
      WireExecInv(WireNext(d, cfg, xs[0]), cfg, xs[1..]);
    }
  }

  lemma WireNextInv(d: Pair, cfg: Wire.Config, x: WireAction)
    requires PairInv(d) && !cfg.listening && WireEnabled(d, cfg, x)
    ensures PairInv(WireNext(d, cfg, x))
  {
    hide Inv, StepA, TakeIn, Deliverable, Permitted;
    match x
    case Local(action) =>
      match action {
        case AtA(y) => StepAInv(d, y);
        case AtB(y) =>
          StepAInv(Flip(d), y);
          assert Flip(Flip(StepA(Flip(d), y))) == StepA(Flip(d), y);
      }
    case BytesToA(bs) => TakeInInv(d, cfg, bs);
    case BytesToB(bs) =>
      TakeInInv(Flip(d), Wire.Mirror(cfg), bs);
      assert Flip(Flip(TakeIn(Flip(d), Wire.Mirror(cfg), bs))) == TakeIn(Flip(d), Wire.Mirror(cfg), bs);
  }

  /** Safety of two peers over the wire: whatever happens to the bytes between them, short of forging a message of the
      other peer, both outputs are prefixes of what was written at the other end, closed only when all of it is there,
      and honest acknowledgments are of delivered bytes. */
  lemma WireSafety(a: Config, b: Config, cfg: Wire.Config, xs: seq<WireAction>)
    requires !cfg.listening && AllWireEnabled(NewPair(a, b), cfg, xs)
    ensures var d := WireExec(NewPair(a, b), cfg, xs);
            && Safe(Forward(d)) && Safe(Backward(d))
            && (d.ab.honest ==> AcksHold(Forward(d))) && (d.ba.honest ==> AcksHold(Backward(d)))
  {
    NewPairInv(a, b);
    WireExecInv(NewPair(a, b), cfg, xs);
    hide Safe, AcksHold, Inv, WireExec;
    var d := WireExec(NewPair(a, b), cfg, xs);
    SafeIfInv(Forward(d));
    SafeIfInv(Backward(d));
    HonestAcksHold(Forward(d));
    HonestAcksHold(Backward(d));
  }
}
