/** The router object. */
module Routers {
  import opened Numbers
  import opened Frames
  import opened InterfaceModel
  import opened Interfaces
  import opened RouterModel
  import opened RouterPorts
  import Model = RouterModel

  class Router {
    var interfaces: seq<NetworkInterface>
    var rtable: seq<Model.Route>

    /** The interfaces are distinct objects. */
    ghost predicate Valid()
      reads this
    {
      forall j, k :: 0 <= j < k < |interfaces| ==> interfaces[j] != interfaces[k]
    }

    /** Every route names an interface. */
    ghost predicate Complete()
      reads this
    {
      PortsExist(rtable, |interfaces|)
    }

    ghost function Views(): (s: seq<Interface>)
      reads this, interfaces
    {
      seq(|interfaces|, k requires 0 <= k < |interfaces| reads this, interfaces => interfaces[k].View())
    }

    constructor ()
      ensures interfaces == [] && rtable == [] && Valid()
    {
      interfaces, rtable := [], [];
    }

    method AddInterface(i: NetworkInterface) returns (n: nat)
      requires Valid() && i !in interfaces
      modifies this`interfaces
      ensures Valid() && n == |old(interfaces)| && interfaces == old(interfaces) + [i]
    {
      interfaces := interfaces + [i];
      n := |interfaces| - 1;
    }

    method AddRoute(prefix: u32, length: PrefixLength, nextHop: Option<u32>, port: nat)
      requires Valid()
      modifies this`rtable
      ensures Valid() && rtable == Model.AddRoute(old(rtable), Model.Route.Route(prefix, length, nextHop, port))
    {
      var r := Model.Route.Route(prefix, length, nextHop, port);
      for k := 0 to |rtable|
        invariant Valid() && rtable == old(rtable)
        invariant forall j :: 0 <= j < k ==> rtable[j].prefix != prefix || rtable[j].length != length
      {
        if rtable[k].prefix == prefix && rtable[k].length == length {
          AddRouteFound(rtable, r, k);
          rtable := rtable[k := r];
          return;
        }
      }
      AddRouteNew(rtable, r);
      rtable := rtable + [r];
    }

    /** The first of the longest matching routes. */
    method Best(ip: u32) returns (best: Option<Model.Route>)
      ensures best == Select(rtable, ip)
    {
      best := None;
      var matchLength: int := -1;
      for k := 0 to |rtable|
        invariant matchLength == if best.None? then -1 else best.value.length
        invariant Scan(rtable, ip, None) == Scan(rtable[k..], ip, best)
      {
        if Matches(rtable[k], ip) && rtable[k].length > matchLength {
          matchLength := rtable[k].length;
          best := Some(rtable[k]);
        }
      }
    }

    /** Route every inbound datagram of every interface. The frames that interfaces transmit are returned, each with
        its port. */
    method Route() returns (sent: seq<Emission>)
      requires Valid() && Complete()
      modifies interfaces
      ensures var emptied := EmptyFirst(old(Views()), |interfaces|);
              && Views() == Deliver(emptied, AllHandoffs(rtable, old(Views())))
              && sent == SentFrames(emptied, AllHandoffs(rtable, old(Views())))
      ensures RoutedRight(rtable, old(Views()), Views(), sent)
    {
      hide Deliver, AllHandoffs, SentFrames, Handoffs, RoutedRight;
      ghost var v0 := Views();
      sent := [];
      RouteNothing(rtable, v0);
      for k := 0 to |interfaces|
        invariant Valid()
        invariant Views() == Deliver(EmptyFirst(v0, k), AllHandoffs(rtable, v0[..k]))
        invariant sent == SentFrames(EmptyFirst(v0, k), AllHandoffs(rtable, v0[..k]))
      {
        RouteAnother(rtable, v0, k);
        var frames := RouteQueue(k);
        sent := sent + frames;
      }
      assert v0[..|interfaces|] == v0;
      RouteIsRight(rtable, v0);
    }

    /** Route the inbound datagrams of interface k. */
    method RouteQueue(k: nat) returns (sent: seq<Emission>)
      requires Valid() && Complete() && k < |interfaces|
      modifies interfaces
      ensures var hs := Handoffs(rtable, old(Views())[k].received);
              && Views() == Deliver(Empty(old(Views()), k), hs)
              && sent == SentFrames(Empty(old(Views()), k), hs)
    {
      hide Deliver, SentFrames, Handoffs, Hand, HandFrames, Empty, Forward;
      ghost var v0 := Views();
      ghost var hs := Handoffs(rtable, v0[k].received);
      sent := [];
      while interfaces[k].received != []
        invariant Valid()
        invariant Deliver(Empty(v0, k), hs) == Deliver(Empty(Views(), k), Handoffs(rtable, Views()[k].received))
        invariant SentFrames(Empty(v0, k), hs)
               == sent + SentFrames(Empty(Views(), k), Handoffs(rtable, Views()[k].received))
        decreases |interfaces[k].received|
      {
        ghost var v := Views();
        QueueStep(rtable, v, k);
        var frames := RouteOne(k);
        sent := sent + frames;
      }
      QueueDone(rtable, Views(), k);
    }

    /** Take the first inbound datagram of interface k and forward or drop it. */
    method RouteOne(k: nat) returns (sent: seq<Emission>)
      requires Valid() && Complete() && k < |interfaces| && interfaces[k].received != []
      modifies interfaces
      ensures interfaces[k].received == old(interfaces[k].received)[1..]
      ensures var v := old(Views());
              var popped := v[k := v[k].(received := v[k].received[1..])];
              var h := Forward(rtable, v[k].received[0]);
              && Views() == (if h.Some? then Hand(popped, h.value) else popped)
              && sent == (if h.Some? then HandFrames(popped, h.value) else [])
    {
      hide Select, Model.Matches, FramesOf, Tagged, Lookup, Requested, PackArp;
      sent := [];
      var dgram := interfaces[k].received[0];
      interfaces[k].received := interfaces[k].received[1..];
      if dgram.header.ttl <= 1 {
        return;
      }
      dgram := dgram.(header := dgram.header.(ttl := dgram.header.ttl - 1));
      var best := Best(dgram.header.dst);
      if best.Some? {
        var hop := if best.value.nextHop.Some? then best.value.nextHop.value else dgram.header.dst;
        SelectIn(rtable, dgram.header.dst);
        var frames := interfaces[best.value.port].SendDatagram(dgram, hop);
        sent := Tagged(best.value.port, frames);
      }
    }
  }

  /** One round of the loop over the queue of interface k. */
  lemma QueueStep(rtable: seq<Model.Route>, v: seq<Interface>, k: nat)
    requires k < |v| && v[k].received != []
    ensures var popped := v[k := v[k].(received := v[k].received[1..])];
            var h := Forward(rtable, v[k].received[0]);
            var v' := if h.Some? then Hand(popped, h.value) else popped;
            var frames := if h.Some? then HandFrames(popped, h.value) else [];
            && |v'| == |v| && v'[k].received == v[k].received[1..]
            && Deliver(Empty(v, k), Handoffs(rtable, v[k].received))
               == Deliver(Empty(v', k), Handoffs(rtable, v'[k].received))
            && SentFrames(Empty(v, k), Handoffs(rtable, v[k].received))
               == frames + SentFrames(Empty(v', k), Handoffs(rtable, v'[k].received))
  {
    var popped := v[k := v[k].(received := v[k].received[1..])];
    var h := Forward(rtable, v[k].received[0]);
    var rest := Handoffs(rtable, v[k].received[1..]);
    assert Empty(popped, k) == Empty(v, k);
    if h.Some? {
      HandReceived(popped, h.value, k);
      assert ([h.value] + rest)[1..] == rest;
    } else {
      assert [] + rest == rest;
    }
  }

  lemma QueueDone(rtable: seq<Model.Route>, v: seq<Interface>, k: nat)
    requires k < |v| && v[k].received == []
    ensures Deliver(Empty(v, k), Handoffs(rtable, v[k].received)) == v
    ensures SentFrames(Empty(v, k), Handoffs(rtable, v[k].received)) == []
  {
    assert Empty(v, k) == v;
  }

  lemma RouteNothing(rtable: seq<Model.Route>, v0: seq<Interface>)
    ensures Deliver(EmptyFirst(v0, 0), AllHandoffs(rtable, v0[..0])) == v0
    ensures SentFrames(EmptyFirst(v0, 0), AllHandoffs(rtable, v0[..0])) == []
  {
  }

  /** Routing the queue of interface k after those of the first k interfaces. */
  lemma RouteAnother(rtable: seq<Model.Route>, v0: seq<Interface>, k: nat)
    requires k < |v0|
    ensures var before, hs := EmptyFirst(v0, k), AllHandoffs(rtable, v0[..k]);
            var after, hs' := EmptyFirst(v0, k + 1), AllHandoffs(rtable, v0[..k + 1]);
            var v := Deliver(before, hs);
            && |v| == |v0| && v[k].received == v0[k].received
            && Deliver(after, hs') == Deliver(Empty(v, k), Handoffs(rtable, v0[k].received))
            && SentFrames(after, hs')
               == SentFrames(before, hs) + SentFrames(Empty(v, k), Handoffs(rtable, v0[k].received))
  {
    assert v0[..k + 1] == v0[..k] + [v0[k]];
    AllHandoffsAppend(rtable, v0[..k], v0[k]);
    var before, hs := EmptyFirst(v0, k), AllHandoffs(rtable, v0[..k]);
    DeliverReceived(before, hs, k);
    DeliverAppend(Empty(before, k), hs, Handoffs(rtable, v0[k].received));
  }
}
