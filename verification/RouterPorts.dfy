/** What one pass of the router does at each port: exactly the sends that longest-prefix match calls for, in order. */
module RouterPorts {
  import opened Numbers
  import opened Bytes
  import opened Frames
  import opened InterfaceModel
  import opened RouterModel
  import opened RouterTheory
  import Link = InterfaceTheory

  /** r stands at position k, and whatever matches before it is shorter. */
  ghost predicate FirstAt(rtable: seq<Route>, ip: u32, r: Route, k: nat) {
    && k < |rtable| && rtable[k] == r
    && forall j :: 0 <= j < k && Matches(rtable[j], ip) ==> rtable[j].length < r.length
  }

  /** r is the first of the longest matching routes. */
  ghost predicate FirstLongest(rtable: seq<Route>, ip: u32, r: Route) {
    Longest(rtable, ip, r) && exists k :: FirstAt(rtable, ip, r, k)
  }

  /** rs holds the route of each datagram, none of which is at the end of its time to live. */
  ghost predicate Choices(rtable: seq<Route>, ds: seq<Datagram>, rs: seq<Route>) {
    && |rs| == |ds|
    && forall k :: 0 <= k < |ds| ==> ds[k].header.ttl >= 2 && FirstLongest(rtable, ds[k].header.dst, rs[k])
  }

  /** The datagram is given to the route's interface with its time to live reduced by one, for the route's next hop
      or, when it has none, for the destination. */
  function Relay(d: Datagram, r: Route): Link.Event {
    Link.SendEvent(d.(header := d.header.(ttl := if d.header.ttl > 0 then d.header.ttl - 1 else 0)),
                   if r.nextHop.Some? then r.nextHop.value else d.header.dst)
  }

  /** What port p is given to send. */
  function SendsTo(ds: seq<Datagram>, rs: seq<Route>, p: nat): seq<Link.Event>
    requires |rs| == |ds|
  {
    if ds == [] then []
    else (if rs[0].port == p then [Relay(ds[0], rs[0])] else []) + SendsTo(ds[1..], rs[1..], p)
  }

  /** The frames of port p, in order. */
  function OnPort(sent: seq<Emission>, p: nat): seq<EthernetFrame> {
    if sent == [] then [] else (if sent[0].port == p then [sent[0].frame] else []) + OnPort(sent[1..], p)
  }

  /** An interface whose inbound queue has been emptied has gone through the events, and put the frames on the wire.
      */
  ghost predicate Through(before: Interface, after: Interface, frames: seq<EthernetFrame>, events: seq<Link.Event>) {
    var o := Link.Run(before.(received := []), events);
    after == o.iface && after.received == [] && frames == FramesOf(o.log)
  }

  /** One pass of the router: every port goes through exactly the sends of the forwardable inbound datagrams whose
      route names it, in order, and no other frames leave. */
  ghost predicate RoutedRight(rtable: seq<Route>, before: seq<Interface>, after: seq<Interface>, sent: seq<Emission>) {
    var ds := Forwardables(rtable, Inbound(before));
    && |after| == |before|
    && (forall x :: x in sent ==> x.port < |before|)
    && exists rs :: Choices(rtable, ds, rs)
                 && forall p :: 0 <= p < |before| ==> Through(before[p], after[p], OnPort(sent, p), SendsTo(ds, rs, p))
  }

  // ----- the choice -----

  lemma {:induction false} ScanLonger(rtable: seq<Route>, ip: u32, best: Option<Route>)
    ensures var s := Scan(rtable, ip, best);
            s == best || (s.Some? && (best.Some? ==> s.value.length > best.value.length))
  {
    hide Matches;
    if rtable != [] {
      ScanLonger(rtable[1..], ip, best);
      ScanLonger(rtable[1..], ip, Some(rtable[0]));
    }
  }

  lemma FirstLater(rtable: seq<Route>, ip: u32, r: Route, k: nat)
    requires rtable != [] && FirstAt(rtable[1..], ip, r, k)
    requires Matches(rtable[0], ip) ==> rtable[0].length < r.length
    ensures FirstAt(rtable, ip, r, k + 1)
  {
    hide Matches;
    forall j | 0 <= j < k + 1 && Matches(rtable[j], ip)
      ensures rtable[j].length < r.length
    {
      if j > 0 {
        assert rtable[1..][j - 1] == rtable[j];
      }
    }
  }

  /** The scan finds the first of the longest. */
  lemma {:induction false} ScanFirst(rtable: seq<Route>, ip: u32, best: Option<Route>) returns (k: nat)
    ensures var s := Scan(rtable, ip, best);
            s.Some? && s != best ==> FirstAt(rtable, ip, s.value, k)
  {
    hide Matches;
    k := 0;
    if rtable != [] {
      var s := Scan(rtable, ip, best);
      var taken := Matches(rtable[0], ip) && (best.None? || rtable[0].length > best.value.length);
      var best' := if taken then Some(rtable[0]) else best;
      ScanLonger(rtable[1..], ip, best');
      var later := ScanFirst(rtable[1..], ip, best');
      if s.Some? && s != best && s != best' {
        FirstLater(rtable, ip, s.value, later);
        k := later + 1;
      }
    }
  }

  lemma SelectFirst(rtable: seq<Route>, ip: u32)
    ensures Select(rtable, ip).Some? ==> FirstLongest(rtable, ip, Select(rtable, ip).value)
  {
    SelectLongest(rtable, ip);
    var k := ScanFirst(rtable, ip, None);
  }

  /** The routes of the forwardable datagrams. */
  function RoutesOf(rtable: seq<Route>, ds: seq<Datagram>): seq<Route> {
    if ds == [] then []
    else (if Forward(rtable, ds[0]).Some? then [Select(rtable, ds[0].header.dst).value] else [])
         + RoutesOf(rtable, ds[1..])
  }

  // ----- port by port -----

  /** The hand-offs to port p, as events of its interface. */
  function EventsOn(hs: seq<Handoff>, p: nat): seq<Link.Event> {
    if hs == [] then []
    else (if hs[0].port == p then [Link.SendEvent(hs[0].dgram, hs[0].hop)] else []) + EventsOn(hs[1..], p)
  }

  lemma {:induction false} RoutesChosen(rtable: seq<Route>, ds: seq<Datagram>)
    ensures Choices(rtable, Forwardables(rtable, ds), RoutesOf(rtable, ds))
  {
    hide Matches, FirstLongest, Select;
    if ds != [] {
      RoutesChosen(rtable, ds[1..]);
      ForwardRight(rtable, ds[0]);
      SelectFirst(rtable, ds[0].header.dst);
    }
  }

  lemma {:induction false} RoutesSend(rtable: seq<Route>, ds: seq<Datagram>, p: nat)
    ensures |RoutesOf(rtable, ds)| == |Forwardables(rtable, ds)|
    ensures EventsOn(Handoffs(rtable, ds), p) == SendsTo(Forwardables(rtable, ds), RoutesOf(rtable, ds), p)
  {
    if ds != [] {
      ForwardRight(rtable, ds[0]);
      hide Select, Forwardable;
      RoutesSend(rtable, ds[1..], p);
      var hs, rest, rs := Handoffs(rtable, ds[1..]), Forwardables(rtable, ds[1..]), RoutesOf(rtable, ds[1..]);
      if Forward(rtable, ds[0]).Some? {
        var h, r := Forward(rtable, ds[0]).value, Select(rtable, ds[0].header.dst).value;
        assert Relay(ds[0], r) == Link.SendEvent(h.dgram, h.hop);
        assert ([h] + hs)[1..] == hs && ([ds[0]] + rest)[1..] == rest && ([r] + rs)[1..] == rs;
      } else {
        assert [] + hs == hs && [] + rest == rest && [] + rs == rs;
      }
    }
  }

  lemma {:induction false} OnPortAppend(a: seq<Emission>, b: seq<Emission>, p: nat)
    ensures OnPort(a + b, p) == OnPort(a, p) + OnPort(b, p)
  {
    if a == [] {
      assert a + b == b;
    } else {
      OnPortAppend(a[1..], b, p);
      assert (a + b)[1..] == a[1..] + b;
      ConcatAssoc(if a[0].port == p then [a[0].frame] else [], OnPort(a[1..], p), OnPort(b, p));
    }
  }

  lemma {:induction false} OnPortTagged(port: nat, frames: seq<EthernetFrame>, p: nat)
    ensures OnPort(Tagged(port, frames), p) == if port == p then frames else []
  {
    if frames != [] {
      OnPortTagged(port, frames[1..], p);
      assert Tagged(port, frames)[1..] == Tagged(port, frames[1..]);
    }
  }

  /** A hand-off is one send at its port and nothing at any other. */
  lemma HandOnPort(ifaces: seq<Interface>, h: Handoff, p: nat)
    requires p < |ifaces|
    ensures |Hand(ifaces, h)| == |ifaces|
    ensures var o := SendDatagram(ifaces[p], h.dgram, h.hop);
            && Hand(ifaces, h)[p] == (if h.port == p then o.iface else ifaces[p])
            && OnPort(HandFrames(ifaces, h), p) == (if h.port == p then FramesOf(o.log) else [])
  {
    hide SendDatagram, FramesOf;
    if h.port < |ifaces| {
      OnPortTagged(h.port, FramesOf(SendDatagram(ifaces[h.port], h.dgram, h.hop).log), p);
    }
  }

  lemma {:induction false} DeliverOnPort(ifaces: seq<Interface>, hs: seq<Handoff>, p: nat)
    requires p < |ifaces|
    ensures var o := Link.Run(ifaces[p], EventsOn(hs, p));
            && |Deliver(ifaces, hs)| == |ifaces| && Deliver(ifaces, hs)[p] == o.iface
            && OnPort(SentFrames(ifaces, hs), p) == FramesOf(o.log)
    decreases |hs|
  {
    if hs != [] {
      var h, next := hs[0], Hand(ifaces, hs[0]);
      HandOnPort(ifaces, h, p);
      DeliverOnPort(next, hs[1..], p);
      OnPortAppend(HandFrames(ifaces, h), SentFrames(next, hs[1..]), p);
      hide Hand, HandFrames, OnPort, SendDatagram;
      if h.port == p {
        var e, es := Link.SendEvent(h.dgram, h.hop), EventsOn(hs[1..], p);
        assert EventsOn(hs, p) == [e] + es && ([e] + es)[1..] == es;
        Link.FramesAppend(SendDatagram(ifaces[p], h.dgram, h.hop).log, Link.Run(next[p], es).log);
      } else {
        assert EventsOn(hs, p) == [] + EventsOn(hs[1..], p) == EventsOn(hs[1..], p);
      }
    }
  }

  /** What the router computes is right at every port. */
  lemma RouteIsRight(rtable: seq<Route>, ifaces: seq<Interface>)
    requires PortsExist(rtable, |ifaces|)
    ensures var start, hs := EmptyFirst(ifaces, |ifaces|), AllHandoffs(rtable, ifaces);
            RoutedRight(rtable, ifaces, Deliver(start, hs), SentFrames(start, hs))
  {
    var start, hs := EmptyFirst(ifaces, |ifaces|), AllHandoffs(rtable, ifaces);
    var ds, rs := Forwardables(rtable, Inbound(ifaces)), RoutesOf(rtable, Inbound(ifaces));
    AllIsInbound(rtable, ifaces);
    RoutesChosen(rtable, Inbound(ifaces));
    DeliverLength(start, hs);
    hide Deliver, SentFrames, AllHandoffs, Handoffs, EventsOn, OnPort, SendsTo, Choices;
    forall p | 0 <= p < |ifaces|
      ensures Through(ifaces[p], Deliver(start, hs)[p], OnPort(SentFrames(start, hs), p), SendsTo(ds, rs, p))
    {
      RoutesSend(rtable, Inbound(ifaces), p);
      DeliverOnPort(start, hs, p);
      DeliverReceived(start, hs, p);
    }
    forall x | x in SentFrames(start, hs)
      ensures x.port < |ifaces|
    {
      PortsKept(start, hs);
    }
  }

  lemma {:induction false} PortsKept(ifaces: seq<Interface>, hs: seq<Handoff>)
    ensures forall x :: x in SentFrames(ifaces, hs) ==> x.port < |ifaces|
    decreases |hs|
  {
    if hs != [] {
      hide SendDatagram, FramesOf;
      PortsKept(Hand(ifaces, hs[0]), hs[1..]);
    }
  }
}
