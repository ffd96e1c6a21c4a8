/** Longest-prefix match: which datagrams are handed over, where, and when the order of routes matters. */
module RouterTheory {
  import opened Numbers
  import opened Bytes
  import opened Frames
  import opened InterfaceModel
  import opened RouterModel

  /** The leading bits decide: a prefix matches exactly when the address lies in the same block of 2^(32 - length). */
  lemma MatchIsLeadingBits(ip: u32, prefix: u32, length: PrefixLength)
    ensures Pow2(32 - length) > 0
    ensures IfMatch(ip, prefix, length) <==> ip / Pow2(32 - length) == prefix / Pow2(32 - length)
  {
    Pow2Positive(32 - length);
    if length == 0 {
      Pow2Of32();
      assert ip / 0x1_0000_0000 == prefix / 0x1_0000_0000 == 0;
    } else {
      SameBlock(ip, prefix, Pow2(32 - length));
    }
  }

  lemma SameBlock(x: nat, y: nat, m: int)
    requires m > 0
    ensures x - x % m == y - y % m <==> x / m == y / m
  {
    var a, b := x / m, y / m;
    assert x == m * a + x % m && y == m * b + y % m;
    if a < b {
      assert m * b == m * a + m * (b - a) && m * (b - a) > 0;
    } else if b < a {
      assert m * a == m * b + m * (a - b) && m * (a - b) > 0;
    }
  }

  lemma Pow2Of32()
    ensures Pow2(32) == 0x1_0000_0000
  {
    assert Pow2(8) == 256;
    assert Pow2(16) == 0x1_0000;
    assert Pow2(24) == 0x100_0000;
  }

  /** r is a matching route that no matching route exceeds in length. */
  ghost predicate Longest(rtable: seq<Route>, ip: u32, r: Route) {
    r in rtable && Matches(r, ip) && forall q :: q in rtable && Matches(q, ip) ==> q.length <= r.length
  }

  lemma {:induction false} ScanLongest(rtable: seq<Route>, ip: u32, best: Option<Route>)
    ensures var s := Scan(rtable, ip, best);
            && (best.Some? ==> s.Some? && s.value.length >= best.value.length)
            && (s.Some? && s != best ==> s.value in rtable && Matches(s.value, ip))
            && (forall q :: q in rtable && Matches(q, ip) ==> s.Some? && q.length <= s.value.length)
  {
    if rtable != [] {
      ScanLongest(rtable[1..], ip, best);
      ScanLongest(rtable[1..], ip, Some(rtable[0]));
    }
  }

  /** The scan finds a route exactly when one matches, and then a longest one. */
  lemma SelectLongest(rtable: seq<Route>, ip: u32)
    ensures Select(rtable, ip).None? <==> forall q :: q in rtable ==> !Matches(q, ip)
    ensures Select(rtable, ip).Some? ==> Longest(rtable, ip, Select(rtable, ip).value)
  {
    ScanLongest(rtable, ip, None);
  }

  // ----- what route() hands over -----

  /** A hand-off does right by a datagram: time to live reduced by one, and the interface and next hop of a
      longest matching route, the destination itself being the next hop when the route has none. */
  ghost predicate HandedRight(rtable: seq<Route>, d: Datagram, h: Handoff) {
    && d.header.ttl > 0 && h.dgram == d.(header := d.header.(ttl := d.header.ttl - 1))
    && exists r :: Longest(rtable, d.header.dst, r) && h.port == r.port
                && h.hop == (if r.nextHop.Some? then r.nextHop.value else d.header.dst)
  }

  predicate Forwardable(rtable: seq<Route>, d: Datagram) {
    d.header.ttl >= 2 && exists r :: r in rtable && Matches(r, d.header.dst)
  }

  function Forwardables(rtable: seq<Route>, ds: seq<Datagram>): seq<Datagram> {
    if ds == [] then []
    else (if Forwardable(rtable, ds[0]) then [ds[0]] else []) + Forwardables(rtable, ds[1..])
  }

  lemma ForwardRight(rtable: seq<Route>, d: Datagram)
    ensures Forward(rtable, d).Some? <==> Forwardable(rtable, d)
    ensures Forward(rtable, d).Some? ==> HandedRight(rtable, d, Forward(rtable, d).value)
  {
    SelectLongest(rtable, d.header.dst);
  }

  /** Of one inbound queue, exactly the datagrams with time to live at least 2 and a matching route are handed
      over, each once and in order. */
  lemma {:induction false} QueueHandedRight(rtable: seq<Route>, ds: seq<Datagram>)
    ensures |Handoffs(rtable, ds)| == |Forwardables(rtable, ds)|
    ensures forall k :: 0 <= k < |Handoffs(rtable, ds)| ==>
              HandedRight(rtable, Forwardables(rtable, ds)[k], Handoffs(rtable, ds)[k])
  {
    if ds != [] {
      ForwardRight(rtable, ds[0]);
      QueueHandedRight(rtable, ds[1..]);
    }
  }

  /** All inbound datagrams, interface by interface. */
  function Inbound(ifaces: seq<Interface>): seq<Datagram> {
    if ifaces == [] then [] else ifaces[0].received + Inbound(ifaces[1..])
  }

  lemma {:induction false} HandoffsConcat(rtable: seq<Route>, a: seq<Datagram>, b: seq<Datagram>)
    ensures Handoffs(rtable, a + b) == Handoffs(rtable, a) + Handoffs(rtable, b)
  {
    if a == [] {
      assert a + b == b;
    } else {
      assert (a + b)[1..] == a[1..] + b;
      HandoffsConcat(rtable, a[1..], b);
      ConcatAssoc(ForwardedBy(rtable, a[0]), Handoffs(rtable, a[1..]), Handoffs(rtable, b));
    }
  }

  lemma {:induction false} AllIsInbound(rtable: seq<Route>, ifaces: seq<Interface>)
    ensures AllHandoffs(rtable, ifaces) == Handoffs(rtable, Inbound(ifaces))
  {
    if ifaces != [] {
      AllIsInbound(rtable, ifaces[1..]);
      HandoffsConcat(rtable, ifaces[0].received, Inbound(ifaces[1..]));
    }
  }

  /** One pass of route() empties every inbound queue, and hands over every forwardable datagram exactly once, in
      order, by a longest matching route to an existing interface. */
  lemma RouteHandsRight(rtable: seq<Route>, ifaces: seq<Interface>)
    requires PortsExist(rtable, |ifaces|)
    ensures var hs, ds := AllHandoffs(rtable, ifaces), Forwardables(rtable, Inbound(ifaces));
            var after := Deliver(EmptyFirst(ifaces, |ifaces|), hs);
            && |after| == |ifaces| && (forall k :: 0 <= k < |ifaces| ==> after[k].received == [])
            && |hs| == |ds|
            && (forall k :: 0 <= k < |hs| ==> HandedRight(rtable, ds[k], hs[k]) && hs[k].port < |ifaces|)
  {
    var hs, ds := AllHandoffs(rtable, ifaces), Forwardables(rtable, Inbound(ifaces));
    AllIsInbound(rtable, ifaces);
    QueueHandedRight(rtable, Inbound(ifaces));
    DeliverLength(EmptyFirst(ifaces, |ifaces|), hs);
    forall k | 0 <= k < |ifaces|
      ensures Deliver(EmptyFirst(ifaces, |ifaces|), hs)[k].received == []
    {
      DeliverReceived(EmptyFirst(ifaces, |ifaces|), hs, k);
    }
  }

  lemma {:induction false} DeliverLength(ifaces: seq<Interface>, hs: seq<Handoff>)
    ensures |Deliver(ifaces, hs)| == |ifaces|
    decreases |hs|
  {
    if hs != [] {
      DeliverLength(Hand(ifaces, hs[0]), hs[1..]);
    }
  }

  // ----- when the order of routes matters -----

  ghost predicate UniqueKeys(rtable: seq<Route>) {
    forall j, k :: 0 <= j < k < |rtable| ==>
      rtable[j].prefix != rtable[k].prefix || rtable[j].length != rtable[k].length
  }

  /** add_route keeps one route per (prefix, length): the new one replaces the old one. */
  lemma {:induction false} AddRouteElements(rtable: seq<Route>, r: Route)
    requires UniqueKeys(rtable)
    ensures UniqueKeys(AddRoute(rtable, r))
    ensures forall q :: q in AddRoute(rtable, r) <==>
              q == r || (q in rtable && (q.prefix != r.prefix || q.length != r.length))
  {
    if rtable != [] && (rtable[0].prefix != r.prefix || rtable[0].length != r.length) {
      AddRouteElements(rtable[1..], r);
      var rest := AddRoute(rtable[1..], r);
      assert forall q :: q in rest ==> q.prefix != rtable[0].prefix || q.length != rtable[0].length;
    }
  }

  function AddAll(rtable: seq<Route>, routes: seq<Route>): seq<Route>
    decreases |routes|
  {
    if routes == [] then rtable else AddAll(AddRoute(rtable, routes[0]), routes[1..])
  }

  lemma {:induction false} AddAllElements(rtable: seq<Route>, routes: seq<Route>)
    requires UniqueKeys(rtable) && UniqueKeys(routes)
    requires forall q, r :: q in rtable && r in routes ==> q.prefix != r.prefix || q.length != r.length
    ensures UniqueKeys(AddAll(rtable, routes))
    ensures forall q :: q in AddAll(rtable, routes) <==> q in rtable || q in routes
    decreases |routes|
  {
    if routes != [] {
      AddRouteElements(rtable, routes[0]);
      AddAllElements(AddRoute(rtable, routes[0]), routes[1..]);
    }
  }

  /** At most one route is longest for ip. */
  ghost predicate Unambiguous(rtable: seq<Route>, ip: u32) {
    forall q, r :: Longest(rtable, ip, q) && Longest(rtable, ip, r) ==> q == r
  }

  ghost predicate HostBitsZero(rtable: seq<Route>) {
    forall r :: r in rtable ==> (Pow2Positive(32 - r.length); Masked(r.prefix, r.length) == r.prefix)
  }

  /** With host bits zero and distinct keys no address is ambiguous. */
  lemma HostBitsZeroUnambiguous(rtable: seq<Route>, ip: u32)
    requires UniqueKeys(rtable) && HostBitsZero(rtable)
    ensures Unambiguous(rtable, ip)
  {
    forall q, r | Longest(rtable, ip, q) && Longest(rtable, ip, r)
      ensures q == r
    {
      assert HostBitsZero([q]) && HostBitsZero([r]);
      SamePrefix(q, r, ip);
      var j :| 0 <= j < |rtable| && rtable[j] == q;
      var k :| 0 <= k < |rtable| && rtable[k] == r;
    }
  }

  lemma SamePrefix(q: Route, r: Route, ip: u32)
    requires HostBitsZero([q]) && HostBitsZero([r]) && Matches(q, ip) && Matches(r, ip) && q.length == r.length
    ensures q.prefix == r.prefix
  {
    assert q in [q] && r in [r];
    if q.length == 0 {
      Pow2Of32();
    }
  }

  /** Any longest route becomes the choice when it comes first. */
  lemma FirstWins(r: Route, others: seq<Route>, ip: u32)
    requires Longest([r] + others, ip, r)
    ensures Select([r] + others, ip) == Some(r)
  {
    assert ([r] + others)[1..] == others;
    forall q | q in others
      ensures q in [r] + others
    {
    }
    KeepsBest(others, ip, r);
  }

  lemma {:induction false} KeepsBest(rtable: seq<Route>, ip: u32, r: Route)
    requires forall q :: q in rtable && Matches(q, ip) ==> q.length <= r.length
    ensures Scan(rtable, ip, Some(r)) == Some(r)
  {
    if rtable != [] {
      KeepsBest(rtable[1..], ip, r);
    }
  }

  /** Two lists of the same routes choose alike where no two routes are longest. */
  lemma SameRoutesSameChoice(rtable: seq<Route>, other: seq<Route>, ip: u32)
    requires Unambiguous(rtable, ip) && forall q :: q in other <==> q in rtable
    ensures Select(other, ip) == Select(rtable, ip)
  {
    SelectLongest(rtable, ip);
    SelectLongest(other, ip);
    if Select(other, ip).Some? {
      assert Longest(rtable, ip, Select(other, ip).value);
    }
  }

  // ----- orders of adding -----

  ghost predicate Permutation(p: seq<Route>, routes: seq<Route>) {
    multiset(p) == multiset(routes)
  }

  lemma {:induction false} TwoPlaces(s: seq<Route>, q: Route)
    ensures multiset(s)[q] >= 2 <==> exists j, k :: 0 <= j < k < |s| && s[j] == q && s[k] == q
  {
    if s != [] {
      assert s == [s[0]] + s[1..];
      TwoPlaces(s[1..], q);
      if multiset(s)[q] >= 2 {
        if s[0] == q {
          assert q in multiset(s[1..]);
          var k :| 0 <= k < |s[1..]| && s[1..][k] == q;
          assert s[0] == q && s[k + 1] == q;
        } else {
          var j, k :| 0 <= j < k < |s[1..]| && s[1..][j] == q && s[1..][k] == q;
          assert s[j + 1] == q && s[k + 1] == q;
        }
      }
      if j, k :| 0 <= j < k < |s| && s[j] == q && s[k] == q {
        assert s[1..][k - 1] == q;
        if j > 0 {
          assert s[1..][j - 1] == q;
        }
      }
    }
  }

  lemma PermutationElements(p: seq<Route>, routes: seq<Route>)
    requires Permutation(p, routes)
    ensures forall q :: q in p <==> q in routes
  {
    forall q
      ensures q in p <==> q in routes
    {
      assert q in multiset(p) <==> q in multiset(routes);
    }
  }

  lemma UniqueOnce(routes: seq<Route>, q: Route)
    requires UniqueKeys(routes)
    ensures multiset(routes)[q] <= 1
  {
    TwoPlaces(routes, q);
  }

  /** Another order of routes with distinct keys has distinct keys. */
  lemma PermutationUnique(p: seq<Route>, routes: seq<Route>)
    requires Permutation(p, routes) && UniqueKeys(routes)
    ensures UniqueKeys(p)
  {
    PermutationElements(p, routes);
    forall j, k | 0 <= j < k < |p|
      ensures p[j].prefix != p[k].prefix || p[j].length != p[k].length
    {
      assert p[j] in routes && p[k] in routes;
      UniqueOnce(routes, p[j]);
      TwoPlaces(p, p[j]);
    }
  }

  /** Adding routes with distinct keys appends them. */
  lemma {:induction false} AddAllAppends(rtable: seq<Route>, routes: seq<Route>)
    requires UniqueKeys(rtable + routes)
    ensures AddAll(rtable, routes) == rtable + routes
    decreases |routes|
  {
    if routes != [] {
      var r := routes[0];
      forall j | 0 <= j < |rtable|
        ensures rtable[j].prefix != r.prefix || rtable[j].length != r.length
      {
        assert (rtable + routes)[j] == rtable[j] && (rtable + routes)[|rtable|] == r;
      }
      AddRouteNew(rtable, r);
      assert (rtable + [r]) + routes[1..] == rtable + routes;
      AddAllAppends(rtable + [r], routes[1..]);
    }
  }

  lemma AddPermuted(p: seq<Route>, routes: seq<Route>)
    requires Permutation(p, routes) && UniqueKeys(routes)
    ensures AddAll([], p) == p
  {
    PermutationUnique(p, routes);
    assert [] + p == p;
    AddAllAppends([], p);
  }

  /** The order in which a route comes first. */
  lemma MovedToFront(routes: seq<Route>, r: Route) returns (others: seq<Route>)
    requires r in routes
    ensures Permutation([r] + others, routes)
  {
    var k :| 0 <= k < |routes| && routes[k] == r;
    others := routes[..k] + routes[k + 1..];
    assert routes == routes[..k] + [r] + routes[k + 1..];
  }

  lemma MadeFirst(routes: seq<Route>, r: Route, ip: u32) returns (p: seq<Route>)
    requires UniqueKeys(routes) && Longest(routes, ip, r)
    ensures Permutation(p, routes) && Select(AddAll([], p), ip) == Some(r)
  {
    var others := MovedToFront(routes, r);
    p := [r] + others;
    PermutationElements(p, routes);
    AddPermuted(p, routes);
    FirstWins(r, others, ip);
  }

  /** The choice is the same for every order in which routes with distinct keys are added exactly when at most one of
      them is longest for the address. */
  lemma OrderIrrelevantIff(routes: seq<Route>, ip: u32)
    requires UniqueKeys(routes)
    ensures Unambiguous(routes, ip)
            <==> forall p :: Permutation(p, routes) ==> Select(AddAll([], p), ip) == Select(AddAll([], routes), ip)
  {
    hide Select, Longest, AddAll;
    AddPermuted(routes, routes);
    if Unambiguous(routes, ip) {
      forall p | Permutation(p, routes)
        ensures Select(AddAll([], p), ip) == Select(AddAll([], routes), ip)
      {
        AddPermuted(p, routes);
        PermutationElements(p, routes);
        SameRoutesSameChoice(routes, p, ip);
      }
    } else {
      var q, r :| Longest(routes, ip, q) && Longest(routes, ip, r) && q != r;
      var p := MadeFirst(routes, q, ip);
      var p' := MadeFirst(routes, r, ip);
    }
  }

  /** So with host bits zero, distinct routes may be added in any order. */
  lemma AddOrderIrrelevant(routes: seq<Route>, others: seq<Route>, ip: u32)
    requires UniqueKeys(routes) && UniqueKeys(others) && HostBitsZero(routes)
    requires forall q :: q in routes <==> q in others
    ensures Select(AddAll([], routes), ip) == Select(AddAll([], others), ip)
  {
    AddAllElements([], routes);
    AddAllElements([], others);
    HostBitsZeroUnambiguous(AddAll([], routes), ip);
    SameRoutesSameChoice(AddAll([], routes), AddAll([], others), ip);
  }

  lemma AddTwo(r: Route, q: Route)
    requires r.prefix != q.prefix
    ensures AddAll([], [r, q]) == [r] + [q]
  {
    assert [r, q][1..] == [q] && [q][1..] == [];
    assert AddRoute([], r) == [r];
    assert AddRoute([r], q) == [r] + AddRoute([r][1..], q) == [r] + [q];
    assert AddAll([r], [q]) == AddAll([r] + [q], []);
  }

  /** Without it the order can matter: two routes for the same /8 written with different host bits. */
  lemma HostBitsMatter(r: Route, q: Route)
    requires r.length == 8 && q.length == 8 && r.prefix == 0x0a00_0001 && q.prefix == 0x0a00_0002
    ensures Select(AddAll([], [r, q]), 0x0a01_0203) == Some(r) && Select(AddAll([], [q, r]), 0x0a01_0203) == Some(q)
  {
    assert Pow2(8) == 256;
    assert Pow2(16) == 0x1_0000;
    assert Pow2(24) == 0x100_0000;
    AddTwo(r, q);
    AddTwo(q, r);
    FirstWins(r, [q], 0x0a01_0203);
    FirstWins(q, [r], 0x0a01_0203);
  }
}
