/** What every run of a network interface keeps: per-hop first-in first-out delivery, and the ARP timing rules. */
module InterfaceTheory {
  import opened Numbers
  import opened Bytes
  import opened Frames
  import opened InterfaceModel
  import Model = InterfaceModel

  datatype Event = SendEvent(dgram: Datagram, hop: u32) | FrameEvent(frame: EthernetFrame) | TickEvent(ms: nat)

  function Step(i: Interface, e: Event): Outcome {
    match e
    case SendEvent(dgram, hop) => SendDatagram(i, dgram, hop)
    case FrameEvent(frame) => RecvFrame(i, frame)
    case TickEvent(ms) => Outcome(Tick(i, ms), [])
  }

  function Run(i: Interface, events: seq<Event>): Outcome
    decreases |events|
  {
    if events == [] then Outcome(i, [])
    else
      var first := Step(i, events[0]);
      var rest := Run(first.iface, events[1..]);
      Outcome(rest.iface, first.log + rest.log)
  }

  lemma FramesAppend(a: seq<Transmission>, b: seq<Transmission>)
    ensures FramesOf(a + b) == FramesOf(a) + FramesOf(b)
  {
  }

  // ----- per-hop conservation -----

  /** The datagrams given for one next hop, in order. */
  function Given(events: seq<Event>, hop: u32): seq<Datagram> {
    if events == [] then []
    else (if events[0].SendEvent? && events[0].hop == hop then [events[0].dgram] else []) + Given(events[1..], hop)
  }

  /** The datagrams queued for one next hop, in order. */
  function Waiting(queued: seq<Queued>, hop: u32): seq<Datagram> {
    if queued == [] then []
    else (if queued[0].hop == hop then [queued[0].dgram] else []) + Waiting(queued[1..], hop)
  }

  /** The datagrams in frames transmitted for one next hop, in order. */
  function Carried(log: seq<Transmission>, hop: u32): seq<Datagram> {
    if log == [] then [] else CarriedBy(log[0], hop) + Carried(log[1..], hop)
  }

  function CarriedBy(t: Transmission, hop: u32): seq<Datagram> {
    if t.ToHop? && t.hop == hop && t.frame.body.IPv4Body? then [t.frame.body.dgram] else []
  }

  /** Nothing is queued for an address that is in the table. */
  ghost predicate QueueUnresolved(i: Interface) {
    forall q :: q in i.queued ==> Lookup(i.rtable, q.hop) == None
  }

  lemma {:induction false} CarriedAppend(a: seq<Transmission>, b: seq<Transmission>, hop: u32)
    ensures Carried(a + b, hop) == Carried(a, hop) + Carried(b, hop)
  {
    hide CarriedBy;
    if a == [] {
      assert a + b == b;
    } else {
      CarriedAppend(a[1..], b, hop);
      assert (a + b)[1..] == a[1..] + b;
      ConcatAssoc(CarriedBy(a[0], hop), Carried(a[1..], hop), Carried(b, hop));
    }
  }

  lemma {:induction false} WaitingAppend(a: seq<Queued>, q: Queued, hop: u32)
    ensures Waiting(a + [q], hop) == Waiting(a, hop) + (if q.hop == hop then [q.dgram] else [])
  {
    if a == [] {
      assert [q][1..] == [];
    } else {
      WaitingAppend(a[1..], q, hop);
      assert (a + [q])[1..] == a[1..] + [q];
    }
  }

  lemma {:induction false} NothingWaiting(queued: seq<Queued>, hop: u32)
    requires forall q :: q in queued ==> q.hop != hop
    ensures Waiting(queued, hop) == []
  {
    if queued != [] {
      NothingWaiting(queued[1..], hop);
    }
  }

  /** A flush sends what waits for its address and leaves what waits for others. */
  lemma {:induction false} FlushWaiting(i: Interface, queued: seq<Queued>, ip: u32, eth: EthernetAddress, hop: u32)
    ensures Carried(Flushed(i, queued, ip, eth), hop) == if hop == ip then Waiting(queued, hop) else []
    ensures Waiting(WithoutHop(queued, ip), hop) == if hop == ip then [] else Waiting(queued, hop)
    ensures forall q :: q in WithoutHop(queued, ip) ==> q in queued && q.hop != ip
  {
    if queued != [] {
      FlushWaiting(i, queued[1..], ip, eth, hop);
      if queued[0].hop == ip {
        var t := ToHop(ip, PackDgram(i, queued[0].dgram, eth));
        assert ([t] + Flushed(i, queued[1..], ip, eth))[1..] == Flushed(i, queued[1..], ip, eth);
      } else {
        assert ([queued[0]] + WithoutHop(queued[1..], ip))[1..] == WithoutHop(queued[1..], ip);
      }
    }
  }

  lemma {:induction false} LookupAppend(rtable: seq<RtEntry>, entry: RtEntry, ip: u32)
    ensures Lookup(rtable + [entry], ip)
            == if Lookup(rtable, ip).Some? then Lookup(rtable, ip) else if entry.ip == ip then Some(entry.eth) else None
  {
    if rtable == [] {
      assert [entry][1..] == [];
    } else {
      LookupAppend(rtable[1..], entry, ip);
      assert (rtable + [entry])[1..] == rtable[1..] + [entry];
    }
  }

  lemma {:induction false} AgeLookup(rtable: seq<RtEntry>, ms: nat, ip: u32)
    requires Lookup(rtable, ip) == None
    ensures Lookup(AgeRtable(rtable, ms), ip) == None
  {
    if rtable != [] {
      AgeLookup(rtable[1..], ms, ip);
      if rtable[0].age + ms < RTABLE_ENTRY_EXPIRE_TIME {
        assert AgeRtable(rtable, ms)[1..] == AgeRtable(rtable[1..], ms);
      }
    }
  }

  lemma RecvArpConserves(i: Interface, msg: ArpMessage, hop: u32)
    requires QueueUnresolved(i)
    ensures var o := RecvArp(i, msg);
            QueueUnresolved(o.iface)
            && Waiting(i.queued, hop) == Carried(o.log, hop) + Waiting(o.iface.queued, hop)
  {
    var o := RecvArp(i, msg);
    var entry := RtEntry(msg.senderIp, msg.senderEth, 0);
    var i1 := i.(rtable := i.rtable + [entry]);
    FlushWaiting(i1, i.queued, msg.senderIp, msg.senderEth, hop);
    forall q | q in o.iface.queued
      ensures Lookup(o.iface.rtable, q.hop) == None
    {
      LookupAppend(i.rtable, entry, q.hop);
    }
    var flushed := Flushed(i1, i.queued, msg.senderIp, msg.senderEth);
    var reply := Control(PackArp(i1, ArpReply(i1, msg)));
    CarriedAppend(flushed, [reply], hop);
    assert [reply][1..] == [];
  }

  lemma StepConserves(i: Interface, e: Event, hop: u32)
    requires QueueUnresolved(i)
    ensures var o := Step(i, e);
            QueueUnresolved(o.iface)
            && Waiting(i.queued, hop) + Given([e], hop) == Carried(o.log, hop) + Waiting(o.iface.queued, hop)
  {
    var o := Step(i, e);
    match e
    case SendEvent(dgram, h) =>
      if Lookup(i.rtable, h).Some? {
        assert o.log[1..] == [];
        if h == hop {
          NothingWaiting(i.queued, hop);
        }
      } else {
        WaitingAppend(i.queued, Queued(dgram, h), hop);
        assert o.log == [] || o.log[1..] == [];
      }
    case FrameEvent(frame) =>
      if Accepted(i, frame) && frame.body.ArpBody? {
        RecvArpConserves(i, frame.body.msg, hop);
      }
    case TickEvent(ms) =>
      forall q | q in i.queued
        ensures Lookup(AgeRtable(i.rtable, ms), q.hop) == None
      {
        AgeLookup(i.rtable, ms, q.hop);
      }
  }

  /** From any state in which nothing is queued for a resolved address: what was waiting for a next hop, followed by
      the datagrams given for it, is what was transmitted for it followed by what is waiting now. */
  lemma {:induction false} RunKeepsOrder(i: Interface, events: seq<Event>, hop: u32)
    requires QueueUnresolved(i)
    ensures var o := Run(i, events);
            QueueUnresolved(o.iface)
            && Waiting(i.queued, hop) + Given(events, hop) == Carried(o.log, hop) + Waiting(o.iface.queued, hop)
    decreases |events|
  {
    if events != [] {
      hide Step, Carried, Waiting, QueueUnresolved, Given;
      var first := Step(i, events[0]);
      var rest := Run(first.iface, events[1..]);
      StepConserves(i, events[0], hop);
      RunKeepsOrder(first.iface, events[1..], hop);
      CarriedAppend(first.log, rest.log, hop);
      GivenFirst(events, hop);
      ConcatChain(Waiting(i.queued, hop), Given([events[0]], hop), Given(events[1..], hop), Carried(first.log, hop),
            Waiting(first.iface.queued, hop), Carried(rest.log, hop), Waiting(rest.iface.queued, hop));
    }
  }

  function NewInterface(eth: EthernetAddress, ip: u32): Interface {
    Interface(eth, ip, [], [], [], [])
  }

  /** Per-hop FIFO conservation over any run of a new interface: the datagrams given for a next hop are those
      transmitted for it followed by those still waiting. None is lost, doubled or overtaken. */
  lemma RunConserves(eth: EthernetAddress, ip: u32, events: seq<Event>, hop: u32)
    ensures var o := Run(NewInterface(eth, ip), events);
            Given(events, hop) == Carried(o.log, hop) + Waiting(o.iface.queued, hop)
  {
    RunKeepsOrder(NewInterface(eth, ip), events, hop);
    assert [] + Given(events, hop) == Given(events, hop);
  }

  lemma GivenFirst(events: seq<Event>, hop: u32)
    requires events != []
    ensures Given(events, hop) == Given([events[0]], hop) + Given(events[1..], hop)
  {
    assert [events[0]][1..] == [];
  }

  // ----- what is passed up -----

  /** The datagrams in the frames addressed to the interface or to everyone, in order. */
  function Inbox(eth: EthernetAddress, events: seq<Event>): seq<Datagram> {
    if events == [] then [] else InboxOf(eth, events[0]) + Inbox(eth, events[1..])
  }

  function InboxOf(eth: EthernetAddress, e: Event): seq<Datagram> {
    if e.FrameEvent? && e.frame.body.IPv4Body? && (e.frame.dst == eth || e.frame.dst == 0xffff_ffff_ffff)
    then [e.frame.body.dgram] else []
  }

  lemma StepReceives(i: Interface, e: Event)
    ensures Step(i, e).iface.received == i.received + InboxOf(i.eth, e)
    ensures Step(i, e).iface.eth == i.eth && Step(i, e).iface.ip == i.ip
  {
  }

  lemma {:induction false} RunCollects(i: Interface, events: seq<Event>)
    ensures Run(i, events).iface.received == i.received + Inbox(i.eth, events)
    decreases |events|
  {
    if events != [] {
      StepReceives(i, events[0]);
      hide Step, InboxOf;
      RunCollects(Step(i, events[0]).iface, events[1..]);
      ConcatAssoc(i.received, InboxOf(i.eth, events[0]), Inbox(i.eth, events[1..]));
    }
  }

  /** Nothing inbound is lost or made up: over any run of a new interface what it passes up is exactly the datagrams
      in the IPv4 frames addressed to it or to everyone, in order. */
  lemma RunReceives(eth: EthernetAddress, ip: u32, events: seq<Event>)
    ensures Run(NewInterface(eth, ip), events).iface.received == Inbox(eth, events)
  {
    RunCollects(NewInterface(eth, ip), events);
    assert [] + Inbox(eth, events) == Inbox(eth, events);
  }

  // ----- timing -----

  /** An interface with a clock and the times that matter: `requestedAt` of the latest ARP request for an address
      from which no ARP message has come since, and `learnedAt` of the latest ARP message that gave an Ethernet
      address for an IP address. */
  datatype History = History(iface: Interface, clock: nat,
                             requestedAt: map<u32, nat>, learnedAt: map<(u32, EthernetAddress), nat>)

  /** The ARP message an event delivers, if it does. */
  function Heard(i: Interface, e: Event): Option<ArpMessage> {
    if e.FrameEvent? && Accepted(i, e.frame) && e.frame.body.ArpBody? then Some(e.frame.body.msg) else None
  }

  /** Does the event make the interface send an ARP request? */
  predicate AsksFor(i: Interface, e: Event, ip: u32) {
    e.SendEvent? && e.hop == ip && Control(PackArp(i, ArpRequest(i, ip))) in Step(i, e).log
  }

  function Advance(h: History, e: Event): History {
    var heard := Heard(h.iface, e);
    History(Step(h.iface, e).iface,
            if e.TickEvent? then h.clock + e.ms else h.clock,
            if heard.Some? then h.requestedAt - {heard.value.senderIp}
            else if e.SendEvent? && AsksFor(h.iface, e, e.hop) then h.requestedAt[e.hop := h.clock]
            else h.requestedAt,
            if heard.Some? then h.learnedAt[(heard.value.senderIp, heard.value.senderEth) := h.clock] else h.learnedAt)
  }

  ghost predicate UniquePending(pending: seq<Pending>) {
    forall j, k :: 0 <= j < k < |pending| ==> pending[j].ip != pending[k].ip
  }

  /** A pending entry is as old as the request it stands for; a request without one is more than 5 s old. */
  ghost predicate RequestTimesOk(h: History) {
    && UniquePending(h.iface.pending)
    && (forall p :: p in h.iface.pending ==>
          p.ip in h.requestedAt && h.requestedAt[p.ip] + p.age == h.clock && p.age <= PENDING_ARP_REQ_EXPIRE_TIME)
    && (forall ip :: ip in h.requestedAt ==>
          Requested(h.iface.pending, ip) || h.requestedAt[ip] + PENDING_ARP_REQ_EXPIRE_TIME < h.clock)
  }

  /** A table entry is at least as old as the latest message for it. */
  ghost predicate TableTimesOk(h: History) {
    && (forall r :: r in h.iface.rtable ==>
          (r.ip, r.eth) in h.learnedAt && h.clock <= h.learnedAt[(r.ip, r.eth)] + r.age
          && r.age < RTABLE_ENTRY_EXPIRE_TIME)
    && (forall k :: k in h.learnedAt ==>
          h.learnedAt[k] <= h.clock
          && (h.clock < h.learnedAt[k] + RTABLE_ENTRY_EXPIRE_TIME ==>
                RtEntry(k.0, k.1, h.clock - h.learnedAt[k]) in h.iface.rtable))
  }

  ghost predicate TimesOk(h: History) {
    RequestTimesOk(h) && TableTimesOk(h)
  }

  /** Some ARP message gave an Ethernet address for ip less than 30 s ago. */
  ghost predicate Fresh(h: History, ip: u32) {
    exists eth :: (ip, eth) in h.learnedAt && h.clock < h.learnedAt[(ip, eth)] + RTABLE_ENTRY_EXPIRE_TIME
  }

  /** A request for ip went out at most 5 s ago and no ARP message has come from it since. */
  predicate Awaited(h: History, ip: u32) {
    ip in h.requestedAt && h.clock <= h.requestedAt[ip] + PENDING_ARP_REQ_EXPIRE_TIME
  }

  /** The timing rules. A datagram given for a next hop leaves at once exactly when an Ethernet address for it was
      learned less than 30 s ago; otherwise a request goes out exactly when none is awaited; and every
      datagram that leaves goes to an address learned for its next hop less than 30 s before, or by this event. */
  ghost predicate Timely(h: History, e: Event) {
    && (e.SendEvent? ==>
          && (Fresh(h, e.hop) <==> exists t :: t in Step(h.iface, e).log && t.ToHop?)
          && (AsksFor(h.iface, e, e.hop) <==> !Fresh(h, e.hop) && !Awaited(h, e.hop)))
    && (forall ip :: AsksFor(h.iface, e, ip) ==> e.SendEvent? && ip == e.hop)
    && UniquePending(Advance(h, e).iface.pending)
    && (forall t :: t in Step(h.iface, e).log && t.ToHop? ==>
          var learned := Advance(h, e).learnedAt;
          (t.hop, t.frame.dst) in learned && h.clock < learned[(t.hop, t.frame.dst)] + RTABLE_ENTRY_EXPIRE_TIME)
  }

  ghost predicate AllTimely(h: History, events: seq<Event>)
    decreases |events|
  {
    events == [] || (Timely(h, events[0]) && AllTimely(Advance(h, events[0]), events[1..]))
  }

  lemma {:induction false} LookupIn(rtable: seq<RtEntry>, ip: u32)
    ensures Lookup(rtable, ip).Some? ==> exists r :: r in rtable && r.ip == ip && r.eth == Lookup(rtable, ip).value
  {
    if rtable != [] && rtable[0].ip != ip {
      LookupIn(rtable[1..], ip);
    }
  }

  lemma {:induction false} AgeRtableIn(rtable: seq<RtEntry>, ms: nat)
    ensures forall r :: r in AgeRtable(rtable, ms) ==>
              r.age >= ms && r.age < RTABLE_ENTRY_EXPIRE_TIME && r.(age := r.age - ms) in rtable
  {
    if rtable != [] {
      AgeRtableIn(rtable[1..], ms);
    }
  }

  lemma {:induction false} AgePendingIn(pending: seq<Pending>, ms: nat)
    ensures forall p :: p in AgePending(pending, ms) ==>
              p.age >= ms && p.age <= PENDING_ARP_REQ_EXPIRE_TIME && p.(age := p.age - ms) in pending
  {
    if pending != [] {
      AgePendingIn(pending[1..], ms);
    }
  }

  lemma {:induction false} AgeRtableKeeps(rtable: seq<RtEntry>, ms: nat, r: RtEntry)
    requires r in rtable && r.age + ms < RTABLE_ENTRY_EXPIRE_TIME
    ensures r.(age := r.age + ms) in AgeRtable(rtable, ms)
  {
    if r != rtable[0] {
      AgeRtableKeeps(rtable[1..], ms, r);
    }
  }

  lemma {:induction false} AgePendingKeeps(pending: seq<Pending>, ms: nat, p: Pending)
    requires p in pending && p.age + ms <= PENDING_ARP_REQ_EXPIRE_TIME
    ensures p.(age := p.age + ms) in AgePending(pending, ms)
  {
    if p != pending[0] {
      AgePendingKeeps(pending[1..], ms, p);
    }
  }

  lemma {:induction false} AgePendingUnique(pending: seq<Pending>, ms: nat)
    requires UniquePending(pending)
    ensures UniquePending(AgePending(pending, ms))
  {
    if pending != [] {
      AgePendingIn(pending[1..], ms);
      AgePendingUnique(pending[1..], ms);
      var rest := AgePending(pending[1..], ms);
      forall p | p in rest
        ensures p.ip != pending[0].ip
      {
        assert p.(age := p.age - ms) in pending[1..];
      }
      UniqueCons(pending[0].(age := pending[0].age + ms), rest);
    }
  }

  lemma UniqueCons(p: Pending, rest: seq<Pending>)
    requires UniquePending(rest) && forall q :: q in rest ==> q.ip != p.ip
    ensures UniquePending([p] + rest)
  {
  }

  lemma {:induction false} WithoutIpIn(pending: seq<Pending>, ip: u32)
    ensures forall p :: p in WithoutIp(pending, ip) <==> p in pending && p.ip != ip
    ensures UniquePending(pending) ==> UniquePending(WithoutIp(pending, ip))
  {
    if pending != [] {
      WithoutIpIn(pending[1..], ip);
      if UniquePending(pending) {
        UniqueCons(pending[0], WithoutIp(pending[1..], ip));
      }
    }
  }

  lemma {:induction false} FlushedTo(i: Interface, queued: seq<Queued>, ip: u32, eth: EthernetAddress)
    ensures forall t :: t in Flushed(i, queued, ip, eth) ==> t.ToHop? && t.hop == ip && t.frame.dst == eth
  {
    if queued != [] {
      FlushedTo(i, queued[1..], ip, eth);
    }
  }

  lemma {:induction false} LookupFinds(rtable: seq<RtEntry>, r: RtEntry)
    requires r in rtable
    ensures Lookup(rtable, r.ip).Some?
  {
    if r != rtable[0] {
      LookupFinds(rtable[1..], r);
    }
  }

  /** The table has an entry for ip exactly when one was learned less than 30 s ago. */
  lemma ResolvedIff(h: History, ip: u32)
    requires TimesOk(h)
    ensures Lookup(h.iface.rtable, ip).Some? <==> Fresh(h, ip)
    ensures Lookup(h.iface.rtable, ip).Some? ==>
              var k := (ip, Lookup(h.iface.rtable, ip).value);
              k in h.learnedAt && h.clock < h.learnedAt[k] + RTABLE_ENTRY_EXPIRE_TIME
  {
    LookupIn(h.iface.rtable, ip);
    if Fresh(h, ip) {
      var eth :| (ip, eth) in h.learnedAt && h.clock < h.learnedAt[(ip, eth)] + RTABLE_ENTRY_EXPIRE_TIME;
      LookupFinds(h.iface.rtable, RtEntry(ip, eth, h.clock - h.learnedAt[(ip, eth)]));
    }
  }

  /** A pending entry stands for a request that is still awaited, and the other way round. */
  lemma PendingIff(h: History, ip: u32)
    requires TimesOk(h)
    ensures Requested(h.iface.pending, ip) <==> Awaited(h, ip)
  {
  }

  lemma SendTimely(h: History, e: Event)
    requires TimesOk(h) && e.SendEvent?
    ensures Timely(h, e) && TimesOk(Advance(h, e))
  {
    var i := h.iface;
    ResolvedIff(h, e.hop);
    PendingIff(h, e.hop);
    var g := Advance(h, e);
    var log := Step(i, e).log;
    if Lookup(i.rtable, e.hop).Some? {
      assert log[0].ToHop? && log[0] in log;
      assert g == h;
    } else if Requested(i.pending, e.hop) {
      assert g == h.(iface := g.iface);
    } else {
      assert log[0] == Control(PackArp(i, ArpRequest(i, e.hop)));
      RequestNoted(h, g, e.hop);
    }
  }

  lemma RequestNoted(h: History, g: History, hop: u32)
    requires RequestTimesOk(h) && !Requested(h.iface.pending, hop)
    requires g.requestedAt == h.requestedAt[hop := h.clock] && g.clock == h.clock
    requires g.iface.pending == h.iface.pending + [Pending(hop, 0)]
    ensures RequestTimesOk(g)
  {
    var p0 := Pending(hop, 0);
    assert p0 in g.iface.pending;
    forall ip | ip in g.requestedAt && ip != hop && Requested(h.iface.pending, ip)
      ensures Requested(g.iface.pending, ip)
    {
      var p :| p in h.iface.pending && p.ip == ip;
      assert p in g.iface.pending;
    }
    forall j | 0 <= j < |h.iface.pending|
      ensures h.iface.pending[j].ip != hop
    {
      assert h.iface.pending[j] in h.iface.pending;
    }
  }

  lemma FrameTimely(h: History, e: Event)
    requires TimesOk(h) && e.FrameEvent?
    ensures Timely(h, e) && TimesOk(Advance(h, e))
  {
    hide Flushed, WithoutIp, WithoutHop;
    var i := h.iface;
    var g := Advance(h, e);
    if Heard(i, e).Some? {
      var msg := e.frame.body.msg;
      var i1 := i.(rtable := i.rtable + [RtEntry(msg.senderIp, msg.senderEth, 0)]);
      HeardNoted(h, g, msg);
      FlushedTo(i1, i.queued, msg.senderIp, msg.senderEth);
    } else {
      assert g == h.(iface := h.iface.(received := g.iface.received));
    }
  }

  lemma HeardNoted(h: History, g: History, msg: ArpMessage)
    requires TimesOk(h)
    requires g.iface.rtable == h.iface.rtable + [RtEntry(msg.senderIp, msg.senderEth, 0)]
    requires g.iface.pending == WithoutIp(h.iface.pending, msg.senderIp)
    requires g == h.(iface := g.iface, requestedAt := h.requestedAt - {msg.senderIp},
                     learnedAt := h.learnedAt[(msg.senderIp, msg.senderEth) := h.clock])
    ensures TimesOk(g)
  {
    RequestAnswered(h, g, msg.senderIp);
    hide RequestTimesOk;
    assert RtEntry(msg.senderIp, msg.senderEth, 0) in g.iface.rtable;
  }

  lemma RequestAnswered(h: History, g: History, ip: u32)
    requires RequestTimesOk(h)
    requires g.iface.pending == WithoutIp(h.iface.pending, ip)
    requires g.clock == h.clock && g.requestedAt == h.requestedAt - {ip}
    ensures RequestTimesOk(g)
  {
    WithoutIpIn(h.iface.pending, ip);
    forall ip' | ip' in g.requestedAt && Requested(h.iface.pending, ip')
      ensures Requested(g.iface.pending, ip')
    {
      var p :| p in h.iface.pending && p.ip == ip';
      assert p in g.iface.pending;
    }
  }

  lemma TickTimely(h: History, e: Event)
    requires TimesOk(h) && e.TickEvent?
    ensures Timely(h, e) && TimesOk(Advance(h, e))
  {
    var g := Advance(h, e);
    TickTable(h, g, e.ms);
    TickRequests(h, g, e.ms);
    hide TableTimesOk, RequestTimesOk, AgeRtable, AgePending;
  }

  lemma TickTable(h: History, g: History, ms: nat)
    requires TableTimesOk(h) && g.iface.rtable == AgeRtable(h.iface.rtable, ms)
    requires g.clock == h.clock + ms && g.learnedAt == h.learnedAt
    ensures TableTimesOk(g)
  {
    hide AgeRtable;
    AgeRtableIn(h.iface.rtable, ms);
    forall k | k in g.learnedAt && g.clock < g.learnedAt[k] + RTABLE_ENTRY_EXPIRE_TIME
      ensures RtEntry(k.0, k.1, g.clock - g.learnedAt[k]) in g.iface.rtable
    {
      AgeRtableKeeps(h.iface.rtable, ms, RtEntry(k.0, k.1, h.clock - h.learnedAt[k]));
    }
  }

  lemma TickRequests(h: History, g: History, ms: nat)
    requires RequestTimesOk(h) && g.iface.pending == AgePending(h.iface.pending, ms)
    requires g.clock == h.clock + ms && g.requestedAt == h.requestedAt
    ensures RequestTimesOk(g)
  {
    hide AgePending;
    AgePendingIn(h.iface.pending, ms);
    AgePendingUnique(h.iface.pending, ms);
    forall ip | ip in g.requestedAt && Requested(h.iface.pending, ip)
      ensures Requested(g.iface.pending, ip) || g.requestedAt[ip] + PENDING_ARP_REQ_EXPIRE_TIME < g.clock
    {
      var p :| p in h.iface.pending && p.ip == ip;
      if p.age + ms <= PENDING_ARP_REQ_EXPIRE_TIME {
        AgePendingKeeps(h.iface.pending, ms, p);
      }
    }
  }

  lemma {:induction false} RunKeepsTimes(h: History, events: seq<Event>)
    requires TimesOk(h)
    ensures AllTimely(h, events)
    decreases |events|
  {
    if events != [] {
      var e := events[0];
      match e {
        case SendEvent(_, _) => SendTimely(h, e);
        case FrameEvent(_) => FrameTimely(h, e);
        case TickEvent(_) => TickTimely(h, e);
      }
      RunKeepsTimes(Advance(h, e), events[1..]);
    }
  }

  function NewHistory(eth: EthernetAddress, ip: u32): History {
    History(NewInterface(eth, ip), 0, map[], map[])
  }

  /** ARP timing over runs: from a new interface on every event keeps the timing rules. Two requests for one
      address with no ARP message from it in between are more than 5000 ms of ticks apart, and every datagram goes to
      an address learned less than 30000 ms of ticks earlier. */
  lemma RunTimely(eth: EthernetAddress, ip: u32, events: seq<Event>)
    ensures AllTimely(NewHistory(eth, ip), events)
  {
    RunKeepsTimes(NewHistory(eth, ip), events);
  }

  // ----- address resolution between two interfaces -----

  /** Resolution: an interface that has neither an address nor a pending request for a neighbour's IP address
      broadcasts a request; the neighbour answers it, with nothing more if nothing was queued for the asker;
      and the answer releases exactly the datagrams queued for that hop, in order, the new one last, to the
      neighbour's address. */
  lemma Resolution(a: Interface, b: Interface, dgram: Datagram)
    requires Lookup(a.rtable, b.ip) == None && !Requested(a.pending, b.ip)
    requires a.eth != ETHERNET_ZERO && Waiting(b.queued, a.ip) == []
    ensures var asked := SendDatagram(a, dgram, b.ip);
            && |asked.log| == 1
            && var answered := RecvFrame(b, asked.log[0].frame);
            && |answered.log| == 1
            && Lookup(answered.iface.rtable, a.ip).Some?
            && var released := RecvFrame(asked.iface, answered.log[0].frame);
            && Carried(released.log, b.ip) == Waiting(a.queued, b.ip) + [dgram]
            && Waiting(released.iface.queued, b.ip) == []
            && Lookup(released.iface.rtable, b.ip) == Some(b.eth)
            && (forall t :: t in released.log ==> t.ToHop? && t.hop == b.ip && t.frame.dst == b.eth)
  {
    var asked := SendDatagram(a, dgram, b.ip);
    var request := ArpRequest(a, b.ip);
    LookupAppend(b.rtable, RtEntry(a.ip, a.eth, 0), a.ip);
    var b1 := b.(rtable := b.rtable + [RtEntry(a.ip, a.eth, 0)]);
    FlushedNone(b1, b.queued, a.ip, a.eth);
    var reply := ArpReply(b, request);
    assert RecvFrame(b, asked.log[0].frame).log == [] + [Control(PackArp(b1, ArpReply(b1, request)))];
    LookupAppend(a.rtable, RtEntry(b.ip, b.eth, 0), b.ip);
    var a1 := asked.iface.(rtable := a.rtable + [RtEntry(b.ip, b.eth, 0)]);
    WaitingAppend(a.queued, Queued(dgram, b.ip), b.ip);
    FlushWaiting(a1, a1.queued, b.ip, b.eth, b.ip);
    FlushedTo(a1, a1.queued, b.ip, b.eth);
  }

  lemma {:induction false} FlushedNone(i: Interface, queued: seq<Queued>, ip: u32, eth: EthernetAddress)
    requires Waiting(queued, ip) == []
    ensures Flushed(i, queued, ip, eth) == []
  {
    if queued != [] {
      FlushedNone(i, queued[1..], ip, eth);
    }
  }
}
