/** The network interface object. Frames handed to the output port are returned in order. */
module Interfaces {
  import opened Numbers
  import opened Bytes
  import opened Frames
  import opened InterfaceModel
  import Model = InterfaceModel

  class NetworkInterface {
    const eth: EthernetAddress
    const ip: u32
    var received: seq<Datagram>
    var queued: seq<Queued>
    var rtable: seq<RtEntry>
    var pending: seq<Pending>

    function View(): Interface
      reads this
    {
      Interface(eth, ip, received, queued, rtable, pending)
    }

    constructor (eth: EthernetAddress, ip: u32)
      ensures View() == Interface(eth, ip, [], [], [], [])
    {
      this.eth, this.ip := eth, ip;
      received, queued, rtable, pending := [], [], [], [];
    }

    method SendDatagram(dgram: Datagram, nextHop: u32) returns (sent: seq<EthernetFrame>)
      modifies this
      ensures var o := Model.SendDatagram(old(View()), dgram, nextHop);
              View() == o.iface && sent == FramesOf(o.log)
    {
      var i := 0;
      while i < |rtable|
        invariant 0 <= i <= |rtable| && View() == old(View())
        invariant Lookup(rtable, nextHop) == Lookup(rtable[i..], nextHop)
      {
        if rtable[i].ip == nextHop {
          sent := [EthernetFrame(rtable[i].eth, eth, IPv4Body(dgram))];
          return;
        }
        i := i + 1;
      }
      sent := [];
      queued := queued + [Queued(dgram, nextHop)];
      for j := 0 to |pending|
        invariant forall k :: 0 <= k < j ==> pending[k].ip != nextHop
        invariant View() == old(View()).(queued := old(queued) + [Queued(dgram, nextHop)])
      {
        if pending[j].ip == nextHop {
          assert pending[j] in pending;
          return;
        }
      }
      sent := [PackArp(View(), ArpRequest(View(), nextHop))];
      pending := pending + [Pending(nextHop, 0)];
    }

    method RecvFrame(frame: EthernetFrame) returns (sent: seq<EthernetFrame>)
      modifies this
      ensures var o := Model.RecvFrame(old(View()), frame);
              View() == o.iface && sent == FramesOf(o.log)
    {
      sent := [];
      if frame.dst != ETHERNET_BROADCAST && frame.dst != eth {
        return;
      }
      match frame.body
      case IPv4Body(dgram) =>
        received := received + [dgram];
      case ArpBody(msg) =>
        rtable := rtable + [RtEntry(msg.senderIp, msg.senderEth, 0)];
        sent := Flush(msg.senderIp, msg.senderEth);
        if msg.opcode == OPCODE_REQUEST && msg.targetIp == ip {
          sent := sent + [PackArp(View(), ArpReply(View(), msg))];
        }
      case OtherBody =>
    }

    /** Forget the pending request for hop and send what is queued for it. */
    method Flush(hop: u32, dst: EthernetAddress) returns (sent: seq<EthernetFrame>)
      modifies this`pending, this`queued
      ensures var o := FlushPending(old(View()), hop, dst);
              View() == o.iface && sent == FramesOf(o.log)
    {
      ghost var before := View();
      pending := WithoutIp(pending, hop);
      sent := FlushQueue(before, hop, dst);
    }

    /** The loop over the queue of an interface that was as given before. */
    method FlushQueue(ghost before: Interface, hop: u32, dst: EthernetAddress) returns (sent: seq<EthernetFrame>)
      requires before.eth == eth && before.queued == queued
      modifies this`queued
      ensures queued == WithoutHop(before.queued, hop)
      ensures sent == FramesOf(Flushed(before, before.queued, hop, dst))
    {
      sent := [];
      var i := 0;
      ghost var kept, rest := [], queued;
      while i < |queued|
        invariant queued == kept + rest && i == |kept|
        invariant WithoutHop(before.queued, hop) == kept + WithoutHop(rest, hop)
        invariant FramesOf(Flushed(before, before.queued, hop, dst))
               == sent + FramesOf(Flushed(before, rest, hop, dst))
        decreases |queued| - i
      {
        FlushStep(before, rest, hop, dst);
        SliceMoves(kept, rest, rest[0]);
        hide Flushed, FramesOf, WithoutHop;
        if queued[i].hop == hop {
          sent := sent + [EthernetFrame(dst, eth, IPv4Body(queued[i].dgram))];
          queued := queued[..i] + queued[i + 1..];
        } else {
          i := i + 1;
          kept := kept + [rest[0]];
        }
        rest := rest[1..];
      }
      FlushStep(before, rest, hop, dst);
    }

    method Tick(ms: nat)
      modifies this
      ensures View() == Model.Tick(old(View()), ms)
    {
      AgeEntries(ms);
      AgeRequests(ms);
    }

    method AgeEntries(ms: nat)
      modifies this`rtable
      ensures rtable == AgeRtable(old(rtable), ms)
    {
      var i := 0;
      ghost var kept, rest := [], rtable;
      while i < |rtable|
        invariant rtable == kept + rest && i == |kept|
        invariant AgeRtable(old(rtable), ms) == kept + AgeRtable(rest, ms)
        decreases |rtable| - i
      {
        AgeRtableStep(rest, ms);
        hide AgeRtable;
        var entry := rtable[i].(age := rtable[i].age + ms);
        SliceMoves(kept, rest, entry);
        if entry.age >= RTABLE_ENTRY_EXPIRE_TIME {
          rtable := rtable[..i] + rtable[i + 1..];
        } else {
          rtable := rtable[..i] + [entry] + rtable[i + 1..];
          i := i + 1;
          ConcatAssoc(kept, [entry], AgeRtable(rest[1..], ms));
          kept := kept + [entry];
        }
        rest := rest[1..];
      }
      assert rest == [] && AgeRtable(rest, ms) == [];
    }

    method AgeRequests(ms: nat)
      modifies this`pending
      ensures pending == AgePending(old(pending), ms)
    {
      var i := 0;
      ghost var kept, rest := [], pending;
      while i < |pending|
        invariant pending == kept + rest && i == |kept|
        invariant AgePending(old(pending), ms) == kept + AgePending(rest, ms)
        decreases |pending| - i
      {
        AgePendingStep(rest, ms);
        hide AgePending;
        var request := pending[i].(age := pending[i].age + ms);
        SliceMoves(kept, rest, request);
        if request.age > PENDING_ARP_REQ_EXPIRE_TIME {
          pending := pending[..i] + pending[i + 1..];
        } else {
          pending := pending[..i] + [request] + pending[i + 1..];
          i := i + 1;
          ConcatAssoc(kept, [request], AgePending(rest[1..], ms));
          kept := kept + [request];
        }
        rest := rest[1..];
      }
      assert rest == [] && AgePending(rest, ms) == [];
    }
  }

  /** Erasing the first of the remaining elements, or replacing it and passing on. */
  lemma SliceMoves<T>(kept: seq<T>, rest: seq<T>, x: T)
    requires rest != []
    ensures var all, i := kept + rest, |kept|;
            && all[i] == rest[0] && all[..i] + all[i + 1..] == kept + rest[1..]
            && all[..i] + [x] + all[i + 1..] == (kept + [x]) + rest[1..]
  {
  }

  lemma AgeRtableStep(rest: seq<RtEntry>, ms: nat)
    requires rest != []
    ensures AgeRtable(rest, ms)
         == (if rest[0].age + ms >= RTABLE_ENTRY_EXPIRE_TIME then [] else [rest[0].(age := rest[0].age + ms)])
            + AgeRtable(rest[1..], ms)
  {
  }

  lemma AgePendingStep(rest: seq<Pending>, ms: nat)
    requires rest != []
    ensures AgePending(rest, ms)
         == (if rest[0].age + ms > PENDING_ARP_REQ_EXPIRE_TIME then [] else [rest[0].(age := rest[0].age + ms)])
            + AgePending(rest[1..], ms)
  {
  }

  /** One round of the loop that flushes the queue. */
  lemma FlushStep(i: Interface, rest: seq<Queued>, hop: u32, dst: EthernetAddress)
    ensures rest == [] ==> FramesOf(Flushed(i, rest, hop, dst)) == [] && WithoutHop(rest, hop) == []
    ensures rest != [] ==>
              && FramesOf(Flushed(i, rest, hop, dst))
                 == (if rest[0].hop == hop then [EthernetFrame(dst, i.eth, IPv4Body(rest[0].dgram))] else [])
                    + FramesOf(Flushed(i, rest[1..], hop, dst))
              && WithoutHop(rest, hop) == (if rest[0].hop == hop then [] else [rest[0]]) + WithoutHop(rest[1..], hop)
  {
  }
}
