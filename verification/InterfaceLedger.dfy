/** The aging tables of a network interface refine a plain ledger: what was heard and asked, and when. Nothing in
    the ledger ever ages or expires, and every frame is spelled out (RFC 826). */
module InterfaceLedger {
  import opened Numbers
  import opened Bytes
  import opened Frames
  import opened InterfaceModel
  import opened InterfaceTheory

  /** An ARP message gave `eth` for `ip` at time `at`. */
  datatype Heard = Heard(ip: u32, eth: EthernetAddress, at: nat)

  /** `heard`: all ARP messages, in order. `asked`: when the last request for an address went out from which no ARP
      message has come since. `waiting`: the datagrams waiting for a next hop, in order. */
  datatype Ledger = Ledger(clock: nat, heard: seq<Heard>, asked: map<u32, nat>, waiting: map<u32, seq<Datagram>>,
                           received: seq<Datagram>)

  datatype Noted = Noted(ledger: Ledger, frames: seq<EthernetFrame>)

  /** The first address heard for ip less than 30 s ago. */
  function Known(heard: seq<Heard>, clock: nat, ip: u32): Option<EthernetAddress> {
    if heard == [] then None
    else if heard[0].ip == ip && clock < heard[0].at + 30000 then Some(heard[0].eth)
    else Known(heard[1..], clock, ip)
  }

  function WaitingFor(l: Ledger, hop: u32): seq<Datagram> {
    if hop in l.waiting then l.waiting[hop] else []
  }

  function DatagramFrame(eth: EthernetAddress, dst: EthernetAddress, dgram: Datagram): EthernetFrame {
    EthernetFrame(dst, eth, IPv4Body(dgram))
  }

  function DatagramFrames(eth: EthernetAddress, dst: EthernetAddress, ds: seq<Datagram>): seq<EthernetFrame> {
    seq(|ds|, k requires 0 <= k < |ds| => DatagramFrame(eth, dst, ds[k]))
  }

  /** Who has address hop? To everyone. */
  function RequestFrame(eth: EthernetAddress, ip: u32, hop: u32): EthernetFrame {
    EthernetFrame(0xffff_ffff_ffff, eth, ArpBody(ArpMessage(1, eth, ip, 0, hop)))
  }

  /** This interface has. To the asker, or to everyone if the asker gave no address. */
  function AnswerFrame(eth: EthernetAddress, ip: u32, m: ArpMessage): EthernetFrame {
    EthernetFrame(if m.senderEth == 0 then 0xffff_ffff_ffff else m.senderEth, eth,
                  ArpBody(ArpMessage(2, eth, ip, m.senderEth, m.senderIp)))
  }

  /** A datagram for a next hop: off at once if an address is known, else it waits, and a request goes out unless
      one did in the last 5 s. */
  function NoteSend(eth: EthernetAddress, ip: u32, l: Ledger, dgram: Datagram, hop: u32): Noted {
    match Known(l.heard, l.clock, hop)
    case Some(dst) => Noted(l, [DatagramFrame(eth, dst, dgram)])
    case None =>
      var l1 := l.(waiting := l.waiting[hop := WaitingFor(l, hop) + [dgram]]);
      if hop in l.asked && l.clock <= l.asked[hop] + 5000 then Noted(l1, [])
      else Noted(l1.(asked := l.asked[hop := l.clock]), [RequestFrame(eth, ip, hop)])
  }

  /** An ARP message: what waits for its sender leaves, and a request for this interface is answered. */
  function NoteArp(eth: EthernetAddress, ip: u32, l: Ledger, m: ArpMessage): Noted {
    Noted(l.(heard := l.heard + [Heard(m.senderIp, m.senderEth, l.clock)],
             asked := l.asked - {m.senderIp}, waiting := l.waiting - {m.senderIp}),
          DatagramFrames(eth, m.senderEth, WaitingFor(l, m.senderIp))
          + if m.opcode == 1 && m.targetIp == ip then [AnswerFrame(eth, ip, m)] else [])
  }

  function Note(eth: EthernetAddress, ip: u32, l: Ledger, e: Event): Noted {
    match e
    case SendEvent(dgram, hop) => NoteSend(eth, ip, l, dgram, hop)
    case FrameEvent(frame) =>
      if frame.dst != eth && frame.dst != 0xffff_ffff_ffff then Noted(l, [])
      else (
        match frame.body
        case IPv4Body(dgram) => Noted(l.(received := l.received + [dgram]), [])
        case ArpBody(m) => NoteArp(eth, ip, l, m)
        case OtherBody => Noted(l, []))
    case TickEvent(ms) => Noted(l.(clock := l.clock + ms), [])
  }

  function NoteAll(eth: EthernetAddress, ip: u32, l: Ledger, events: seq<Event>): Noted
    decreases |events|
  {
    if events == [] then Noted(l, [])
    else
      var first := Note(eth, ip, l, events[0]);
      var rest := NoteAll(eth, ip, first.ledger, events[1..]);
      Noted(rest.ledger, first.frames + rest.frames)
  }

  function NewLedger(): Ledger {
    Ledger(0, [], map[], map[], [])
  }

  // ----- what the tables hold -----

  /** The entries heard less than 30 s ago, with their ages. */
  function Recent(heard: seq<Heard>, clock: nat): seq<RtEntry> {
    if heard == [] then []
    else if heard[0].at <= clock < heard[0].at + 30000 then
      [RtEntry(heard[0].ip, heard[0].eth, clock - heard[0].at)] + Recent(heard[1..], clock)
    else Recent(heard[1..], clock)
  }

  ghost predicate Past(heard: seq<Heard>, clock: nat) {
    forall h :: h in heard ==> h.at <= clock
  }

  ghost predicate Shows(eth: EthernetAddress, ip: u32, i: Interface, l: Ledger) {
    && i.eth == eth && i.ip == ip && i.received == l.received
    && Past(l.heard, l.clock) && i.rtable == Recent(l.heard, l.clock)
    && RequestTimesOk(History(i, l.clock, l.asked, map[]))
    && (forall hop :: Waiting(i.queued, hop) == WaitingFor(l, hop))
  }

  lemma {:induction false} LookupIsKnown(heard: seq<Heard>, clock: nat, ip: u32)
    requires Past(heard, clock)
    ensures Lookup(Recent(heard, clock), ip) == Known(heard, clock, ip)
  {
    if heard != [] {
      assert heard[0] in heard;
      LookupIsKnown(heard[1..], clock, ip);
    }
  }

  /** Aging the entries and dropping the old ones is letting the clock run. */
  lemma {:induction false} AgeIsRecent(heard: seq<Heard>, clock: nat, ms: nat)
    requires Past(heard, clock)
    ensures AgeRtable(Recent(heard, clock), ms) == Recent(heard, clock + ms)
  {
    if heard != [] {
      assert heard[0] in heard;
      AgeIsRecent(heard[1..], clock, ms);
    }
  }

  lemma {:induction false} RecentAppend(heard: seq<Heard>, clock: nat, h: Heard)
    requires h.at == clock
    ensures Recent(heard + [h], clock) == Recent(heard, clock) + [RtEntry(h.ip, h.eth, 0)]
  {
    if heard == [] {
      assert heard + [h] == [h] && [h][1..] == [];
    } else {
      RecentAppend(heard[1..], clock, h);
      assert (heard + [h])[1..] == heard[1..] + [h];
    }
  }

  lemma DatagramsAppend(eth: EthernetAddress, dst: EthernetAddress, a: seq<Datagram>, b: seq<Datagram>)
    ensures DatagramFrames(eth, dst, a + b) == DatagramFrames(eth, dst, a) + DatagramFrames(eth, dst, b)
  {
  }

  lemma {:induction false} FlushedIs(i: Interface, queued: seq<Queued>, hop: u32, dst: EthernetAddress)
    ensures FramesOf(Flushed(i, queued, hop, dst)) == DatagramFrames(i.eth, dst, Waiting(queued, hop))
  {
    if queued != [] {
      FlushedIs(i, queued[1..], hop, dst);
      var frame := ToHop(hop, PackDgram(i, queued[0].dgram, dst));
      if queued[0].hop == hop {
        FramesAppend([frame], Flushed(i, queued[1..], hop, dst));
        DatagramsAppend(i.eth, dst, [queued[0].dgram], Waiting(queued[1..], hop));
        assert FramesOf([frame]) == DatagramFrames(i.eth, dst, [queued[0].dgram]);
      } else {
        assert Waiting(queued, hop) == [] + Waiting(queued[1..], hop) == Waiting(queued[1..], hop);
      }
    }
  }

  // ----- step by step -----

  lemma SendNoted(eth: EthernetAddress, ip: u32, i: Interface, l: Ledger, dgram: Datagram, hop: u32)
    requires Shows(eth, ip, i, l)
    ensures var o, n := SendDatagram(i, dgram, hop), NoteSend(eth, ip, l, dgram, hop);
            Shows(eth, ip, o.iface, n.ledger) && FramesOf(o.log) == n.frames
  {
    var o, n := SendDatagram(i, dgram, hop), NoteSend(eth, ip, l, dgram, hop);
    LookupIsKnown(l.heard, l.clock, hop);
    if Lookup(i.rtable, hop).None? {
      forall h
        ensures Waiting(o.iface.queued, h) == WaitingFor(n.ledger, h)
      {
        WaitingAppend(i.queued, Queued(dgram, hop), h);
      }
      var before, after := History(i, l.clock, l.asked, map[]), History(o.iface, l.clock, n.ledger.asked, map[]);
      if !Requested(i.pending, hop) {
        RequestNoted(before, after, hop);
      }
    }
  }

  lemma ArpNoted(eth: EthernetAddress, ip: u32, i: Interface, l: Ledger, m: ArpMessage)
    requires Shows(eth, ip, i, l)
    ensures var o, n := RecvArp(i, m), NoteArp(eth, ip, l, m);
            Shows(eth, ip, o.iface, n.ledger) && FramesOf(o.log) == n.frames
  {
    hide Flushed, Recent, RequestTimesOk, WithoutHop, WithoutIp, Waiting;
    var o, n := RecvArp(i, m), NoteArp(eth, ip, l, m);
    var i1 := i.(rtable := i.rtable + [RtEntry(m.senderIp, m.senderEth, 0)]);
    RecentAppend(l.heard, l.clock, Heard(m.senderIp, m.senderEth, l.clock));
    FlushedIs(i1, i.queued, m.senderIp, m.senderEth);
    RequestAnswered(History(i, l.clock, l.asked, map[]), History(o.iface, l.clock, n.ledger.asked, map[]), m.senderIp);
    forall h
      ensures Waiting(o.iface.queued, h) == WaitingFor(n.ledger, h)
    {
      FlushWaiting(i1, i.queued, m.senderIp, m.senderEth, h);
    }
  }

  lemma TickNoted(eth: EthernetAddress, ip: u32, i: Interface, l: Ledger, ms: nat)
    requires Shows(eth, ip, i, l)
    ensures Shows(eth, ip, Tick(i, ms), l.(clock := l.clock + ms))
  {
    AgeIsRecent(l.heard, l.clock, ms);
    TickRequests(History(i, l.clock, l.asked, map[]), History(Tick(i, ms), l.clock + ms, l.asked, map[]), ms);
    hide RequestTimesOk, AgeRtable, AgePending, Recent;
  }

  lemma StepNoted(eth: EthernetAddress, ip: u32, i: Interface, l: Ledger, e: Event)
    requires Shows(eth, ip, i, l)
    ensures var o, n := Step(i, e), Note(eth, ip, l, e);
            Shows(eth, ip, o.iface, n.ledger) && FramesOf(o.log) == n.frames
  {
    hide RecvArp, NoteArp, SendDatagram, NoteSend, Tick, Recent, Waiting;
    match e
    case SendEvent(dgram, hop) => SendNoted(eth, ip, i, l, dgram, hop);
    case FrameEvent(frame) =>
      if frame.body.ArpBody? {
        ArpNoted(eth, ip, i, l, frame.body.msg);
      }
    case TickEvent(ms) => TickNoted(eth, ip, i, l, ms);
  }

  lemma {:induction false} RunNoted(eth: EthernetAddress, ip: u32, i: Interface, l: Ledger, events: seq<Event>)
    requires Shows(eth, ip, i, l)
    ensures var o, n := Run(i, events), NoteAll(eth, ip, l, events);
            Shows(eth, ip, o.iface, n.ledger) && FramesOf(o.log) == n.frames
    decreases |events|
  {
    if events != [] {
      hide Shows, Step, Note, FramesOf;
      StepNoted(eth, ip, i, l, events[0]);
      var o, n := Step(i, events[0]), Note(eth, ip, l, events[0]);
      RunNoted(eth, ip, o.iface, n.ledger, events[1..]);
      FramesAppend(o.log, Run(o.iface, events[1..]).log);
    }
  }

  /** Refinement over any run of a new interface: it transmits exactly the frames of the ledger, field by field and
      in order, passes up the same datagrams, its table is what was heard less than 30 s ago, in order and with its
      age, and what waits is what the ledger says waits. */
  lemma RunRefinesLedger(eth: EthernetAddress, ip: u32, events: seq<Event>)
    ensures var o, n := Run(NewInterface(eth, ip), events), NoteAll(eth, ip, NewLedger(), events);
            && FramesOf(o.log) == n.frames
            && o.iface.received == n.ledger.received
            && o.iface.rtable == Recent(n.ledger.heard, n.ledger.clock)
            && (forall hop :: Waiting(o.iface.queued, hop) == WaitingFor(n.ledger, hop))
  {
    RunNoted(eth, ip, NewInterface(eth, ip), NewLedger(), events);
  }
}
