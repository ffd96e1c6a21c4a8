/** What the router computes: longest-prefix match and the hand-off of datagrams (section 5.2.4.3 of RFC 1812). */
module RouterModel {
  import opened Numbers
  import opened Bytes
  import opened Frames
  import opened InterfaceModel

  type PrefixLength = x: nat | x <= 32

  datatype Route = Route(prefix: u32, length: PrefixLength, nextHop: Option<u32>, port: nat)

  /** x & (0xffffffff << (32 - length)): the low 32 - length bits cleared. */
  function Masked(x: u32, length: PrefixLength): int
    requires Pow2(32 - length) > 0
  {
    x - x % Pow2(32 - length)
  }

  lemma {:induction false} Pow2Positive(n: nat)
    ensures Pow2(n) > 0
  {
    if n > 0 {
      Pow2Positive(n - 1);
    }
  }

  predicate IfMatch(ip: u32, prefix: u32, length: PrefixLength) {
    length == 0 || (Pow2Positive(32 - length); Masked(ip, length) == Masked(prefix, length))
  }

  predicate Matches(r: Route, ip: u32) {
    IfMatch(ip, r.prefix, r.length)
  }

  /** Replace the route with the same prefix and length, or append. */
  function AddRoute(rtable: seq<Route>, r: Route): seq<Route> {
    if rtable == [] then [r]
    else if rtable[0].prefix == r.prefix && rtable[0].length == r.length then [r] + rtable[1..]
    else [rtable[0]] + AddRoute(rtable[1..], r)
  }

  lemma {:induction false} AddRouteFound(rtable: seq<Route>, r: Route, k: nat)
    requires k < |rtable| && rtable[k].prefix == r.prefix && rtable[k].length == r.length
    requires forall j :: 0 <= j < k ==> rtable[j].prefix != r.prefix || rtable[j].length != r.length
    ensures AddRoute(rtable, r) == rtable[k := r]
  {
    if k > 0 {
      AddRouteFound(rtable[1..], r, k - 1);
    }
  }

  lemma {:induction false} AddRouteNew(rtable: seq<Route>, r: Route)
    requires forall j :: 0 <= j < |rtable| ==> rtable[j].prefix != r.prefix || rtable[j].length != r.length
    ensures AddRoute(rtable, r) == rtable + [r]
  {
    if rtable != [] {
      AddRouteNew(rtable[1..], r);
    }
  }

  /** The scan of the table: keep the best so far, replace it by a longer match only. */
  function Scan(rtable: seq<Route>, ip: u32, best: Option<Route>): Option<Route> {
    if rtable == [] then best
    else if Matches(rtable[0], ip) && (best.None? || rtable[0].length > best.value.length) then
      Scan(rtable[1..], ip, Some(rtable[0]))
    else Scan(rtable[1..], ip, best)
  }

  function Select(rtable: seq<Route>, ip: u32): Option<Route> {
    Scan(rtable, ip, None)
  }

  /** A datagram handed to an interface for a next hop. */
  datatype Handoff = Handoff(port: nat, dgram: Datagram, hop: u32)

  function Forward(rtable: seq<Route>, d: Datagram): Option<Handoff> {
    if d.header.ttl <= 1 then None
    else match Select(rtable, d.header.dst)
      case None => None
      case Some(r) =>
        Some(Handoff(r.port, d.(header := d.header.(ttl := d.header.ttl - 1)),
                     if r.nextHop.Some? then r.nextHop.value else d.header.dst))
  }

  function Handoffs(rtable: seq<Route>, ds: seq<Datagram>): seq<Handoff> {
    if ds == [] then [] else ForwardedBy(rtable, ds[0]) + Handoffs(rtable, ds[1..])
  }

  function ForwardedBy(rtable: seq<Route>, d: Datagram): seq<Handoff> {
    var h := Forward(rtable, d);
    if h.Some? then [h.value] else []
  }

  /** All hand-offs of one pass over the interfaces, in order. */
  function AllHandoffs(rtable: seq<Route>, ifaces: seq<Interface>): seq<Handoff> {
    if ifaces == [] then [] else Handoffs(rtable, ifaces[0].received) + AllHandoffs(rtable, ifaces[1..])
  }

  predicate PortsExist(rtable: seq<Route>, n: nat) {
    forall r :: r in rtable ==> r.port < n
  }

  /** Hand one datagram to its interface. A route to a missing interface would raise an exception in the
      router; valid tables have none. */
  function Hand(ifaces: seq<Interface>, h: Handoff): seq<Interface> {
    if h.port < |ifaces| then ifaces[h.port := SendDatagram(ifaces[h.port], h.dgram, h.hop).iface] else ifaces
  }

  /** A frame on the wire of one port. */
  datatype Emission = Emission(port: nat, frame: EthernetFrame)

  function Tagged(port: nat, frames: seq<EthernetFrame>): seq<Emission> {
    seq(|frames|, k requires 0 <= k < |frames| => Emission(port, frames[k]))
  }

  /** The frames this puts on the wire. */
  function HandFrames(ifaces: seq<Interface>, h: Handoff): seq<Emission> {
    if h.port < |ifaces| then Tagged(h.port, FramesOf(SendDatagram(ifaces[h.port], h.dgram, h.hop).log)) else []
  }

  function Deliver(ifaces: seq<Interface>, hs: seq<Handoff>): seq<Interface>
    decreases |hs|
  {
    if hs == [] then ifaces else Deliver(Hand(ifaces, hs[0]), hs[1..])
  }

  function SentFrames(ifaces: seq<Interface>, hs: seq<Handoff>): seq<Emission>
    decreases |hs|
  {
    if hs == [] then [] else HandFrames(ifaces, hs[0]) + SentFrames(Hand(ifaces, hs[0]), hs[1..])
  }

  /** Interface k without its inbound datagrams. */
  function Empty(ifaces: seq<Interface>, k: nat): seq<Interface>
    requires k < |ifaces|
  {
    ifaces[k := ifaces[k].(received := [])]
  }

  /** The first n interfaces without theirs. */
  function EmptyFirst(ifaces: seq<Interface>, n: nat): (r: seq<Interface>)
    requires n <= |ifaces|
    ensures |r| == |ifaces|
    ensures forall j :: 0 <= j < |ifaces| ==> r[j] == if j < n then ifaces[j].(received := []) else ifaces[j]
  {
    if n == 0 then ifaces else Empty(EmptyFirst(ifaces, n - 1), n - 1)
  }

  // ----- handing over does not touch inbound queues -----

  lemma HandReceived(ifaces: seq<Interface>, h: Handoff, k: nat)
    requires k < |ifaces|
    ensures |Hand(ifaces, h)| == |ifaces| && Hand(ifaces, h)[k].received == ifaces[k].received
    ensures Hand(Empty(ifaces, k), h) == Empty(Hand(ifaces, h), k)
    ensures HandFrames(Empty(ifaces, k), h) == HandFrames(ifaces, h)
  {
    if h.port < |ifaces| {
      var i := ifaces[h.port];
      assert SendDatagram(i.(received := []), h.dgram, h.hop).iface
          == SendDatagram(i, h.dgram, h.hop).iface.(received := []);
    }
  }

  lemma {:induction false} DeliverReceived(ifaces: seq<Interface>, hs: seq<Handoff>, k: nat)
    requires k < |ifaces|
    ensures |Deliver(ifaces, hs)| == |ifaces| && Deliver(ifaces, hs)[k].received == ifaces[k].received
    ensures Deliver(Empty(ifaces, k), hs) == Empty(Deliver(ifaces, hs), k)
    ensures SentFrames(Empty(ifaces, k), hs) == SentFrames(ifaces, hs)
    decreases |hs|
  {
    if hs != [] {
      HandReceived(ifaces, hs[0], k);
      DeliverReceived(Hand(ifaces, hs[0]), hs[1..], k);
    }
  }

  lemma {:induction false} DeliverAppend(ifaces: seq<Interface>, a: seq<Handoff>, b: seq<Handoff>)
    ensures Deliver(ifaces, a + b) == Deliver(Deliver(ifaces, a), b)
    ensures SentFrames(ifaces, a + b) == SentFrames(ifaces, a) + SentFrames(Deliver(ifaces, a), b)
    decreases |a|
  {
    if a == [] {
      assert a + b == b;
    } else {
      assert (a + b)[1..] == a[1..] + b && (a + b)[0] == a[0];
      hide Hand, HandFrames;
      var next := Hand(ifaces, a[0]);
      DeliverAppend(next, a[1..], b);
      ConcatAssoc(HandFrames(ifaces, a[0]), SentFrames(next, a[1..]), SentFrames(Deliver(next, a[1..]), b));
    }
  }

  lemma {:induction false} AllHandoffsAppend(rtable: seq<Route>, ifaces: seq<Interface>, i: Interface)
    ensures AllHandoffs(rtable, ifaces + [i]) == AllHandoffs(rtable, ifaces) + Handoffs(rtable, i.received)
  {
    hide Handoffs;
    if ifaces == [] {
      assert AllHandoffs(rtable, [i]) == Handoffs(rtable, i.received) + AllHandoffs(rtable, [i][1..]);
    } else {
      AllHandoffsAppend(rtable, ifaces[1..], i);
      assert (ifaces + [i])[1..] == ifaces[1..] + [i];
      ConcatAssoc(Handoffs(rtable, ifaces[0].received), AllHandoffs(rtable, ifaces[1..]), Handoffs(rtable, i.received));
    }
  }

  lemma {:induction false} ScanIn(rtable: seq<Route>, ip: u32, best: Option<Route>)
    ensures Scan(rtable, ip, best).Some? ==>
              Scan(rtable, ip, best) == best || Scan(rtable, ip, best).value in rtable
  {
    if rtable != [] {
      ScanIn(rtable[1..], ip, best);
      ScanIn(rtable[1..], ip, Some(rtable[0]));
    }
  }

  lemma SelectIn(rtable: seq<Route>, ip: u32)
    ensures Select(rtable, ip).Some? ==> Select(rtable, ip).value in rtable
  {
    ScanIn(rtable, ip, None);
  }
}
