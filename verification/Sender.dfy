/** The TCP sender object and its retransmission timer. Messages handed to `transmit` are returned in order. */
module Senders {
  import opened Numbers
  import opened Messages
  import opened Wrapping
  import opened ByteStreams
  import opened SenderModel
  import Model = SenderModel
  import Input = StreamModel

  class RetransmissionTimer {
    var running: bool
    var expired: bool
    var expTime: u64
    var curTime: u64

    function View(): Timer
      reads this
    {
      Timer(running, expired, expTime, curTime)
    }

    constructor ()
      ensures View() == Timer(false, false, 0, 0)
    {
      running, expired, expTime, curTime := false, false, 0, 0;
    }

    method Grow(time: u64)
      modifies this
      ensures View() == Model.Grow(old(View()), time)
    {
      if !running {
        return;
      }
      if U64(curTime + time) < curTime {
        expired := true;
        return;
      }
      curTime := U64(curTime + time);
      expired := curTime >= expTime;
    }

    method Reset(time: u64)
      modifies this
      ensures View() == Model.Reset(old(View()), time)
    {
      running, expired, expTime, curTime := true, false, time, 0;
    }

    method TurnOff()
      modifies this
      ensures View() == Model.TurnOff(old(View()))
    {
      running := false;
    }
  }

  class TCPSender {
    const input: ByteStream
    const isn: u32
    const initialRto: u64
    const timer: RetransmissionTimer
    var curRto: u64
    var lastAckno: nat
    var expAckno: nat
    var finSent: bool
    var finAcked: bool
    var retxCnt: nat
    var conRetx: bool
    var wnd: nat
    var ost: seq<Outstanding>

    ghost predicate Valid()
      reads this, input, input.content
    {
      input.Valid()
    }

    ghost function View(): Sender
      requires Valid()
      reads this, input, input.content, timer
    {
      Sender(input.View(), isn, initialRto, curRto, lastAckno, expAckno, finSent, finAcked,
             retxCnt, conRetx, timer.View(), wnd, ost)
    }

    constructor (input: ByteStream, isn: u32, initialRto: u64)
      requires input.Valid()
      ensures this.input == input && Valid() && fresh(timer)
      ensures View() == Sender(input.View(), isn, initialRto, initialRto, 0, 0, false, false, 0, false,
                               Timer(false, false, 0, 0), 1, [])
    {
      this.input, this.isn, this.initialRto := input, isn, initialRto;
      timer := new RetransmissionTimer();
      curRto := initialRto;
      lastAckno, expAckno, finSent, finAcked := 0, 0, false, false;
      retxCnt, conRetx, wnd, ost := 0, false, 1, [];
    }

    function SequenceNumbersInFlight(): (n: int)
      requires Valid()
      reads this, input, input.content, timer
      ensures n == InFlight(View())
    {
      expAckno - lastAckno
    }

    method Push() returns (sent: seq<SenderMessage>)
      requires Valid()
      modifies this, input, input.content, timer
      ensures Valid() && Sent(View(), sent) == Model.Push(old(View()))
    {
      sent := [];
      if finAcked {
        return;
      }
      var room := if wnd == 0 then 1 else wnd;
      if lastAckno + room <= expAckno {
        return;
      }
      sent := FillWindow(lastAckno + room - expAckno);
    }

    /** The loop of push. */
    method FillWindow(window: nat) returns (sent: seq<SenderMessage>)
      requires Valid()
      modifies this, input, input.content, timer
      ensures Valid() && Sent(View(), sent) == Fill(old(View()), window)
    {
      hide Segment, AfterSegment, Fill, ByteStream.Valid;
      sent := [];
      var room := window;
      var synPending := if expAckno == 0 then 1 else 0;
      var finPending := if input.isClosed && !finSent then 1 else 0;
      var remaining := synPending + input.BytesBuffered() + finPending;
      ghost var s0 := View();
      ghost var s := s0;
      assert remaining == Unsent(s);
      hide ByteStream.View;
      while remaining > 0 && room > 0
        invariant Valid() && s == View()
        invariant room >= 0 && remaining == Unsent(s)
        invariant Fill(s0, window) == Sent(Fill(s, room).sender, sent + Fill(s, room).messages)
        decreases remaining
      {
        SegmentProgress(s, room);
        FillStep(s, room);
        var message := SendSegment(room);
        s := View();
        sent := sent + [message];
        room := room - Length(message);
        remaining := if message.fin then 0 else remaining - Length(message);
      }
      FillDone(s, room);
    }

    /** One round of the loop: fill a segment from the input, transmit it, and remember it. */
    method SendSegment(room: nat) returns (message: SenderMessage)
      requires Valid() && room > 0
      modifies this, input, input.content, timer
      ensures Valid() && message == Segment(old(View()), room)
      ensures View() == AfterSegment(old(View()), room)
    {
      hide Segment, ByteStream.Valid, ByteStream.View;
      message := TakeSegment(room);
      ost := MapInsert(ost, Outstanding(expAckno, message));
      expAckno := expAckno + Length(message);
      if !timer.running {
        timer.Reset(curRto);
      }
    }

    /** Fill a segment from the input. */
    method TakeSegment(room: nat) returns (message: SenderMessage)
      requires Valid() && room > 0
      modifies this`finSent, input
      ensures Valid() && message == Segment(old(View()), room)
      ensures View() == AfterTaking(old(View()), message)
    {
      hide Wrap, ByteStream.Valid;
      var seqno := Wrap(expAckno, isn);
      var syn, fin, payload := false, false, [];
      var room' := room;
      if expAckno == 0 {
        syn, seqno := true, isn;
        room' := room' - 1;
      }
      if room' > 0 {
        payload := Read(input, Min(input.BytesBuffered(), Min(room', MAX_PAYLOAD_SIZE)));
        room' := room' - |payload|;
        if room' > 0 && input.IsFinished() {
          fin := true;
          finSent := true;
        }
      }
      message := SenderMessage(seqno, syn, payload, fin, input.error);
    }

    method MakeEmptyMessage() returns (message: SenderMessage)
      requires Valid()
      ensures message == EmptyMessage(View())
    {
      message := SenderMessage(Wrap(expAckno, isn), false, [], false, input.error);
    }

    method Receive(msg: ReceiverMessage)
      requires Valid()
      modifies this, input, input.content, timer
      ensures Valid() && View() == Model.Receive(old(View()), msg)
    {
      hide ByteStream.Valid, ReceiveAck, Wrapping.Unwrap;
      if msg.rst {
        input.SetError();
        return;
      }
      var ackno := 0;
      if msg.ackno == None {
        lastAckno, expAckno, wnd, ost := 0, 0, msg.window, [];
      } else {
        ackno := Unwrap(msg.ackno.value, isn, U64(lastAckno));
      }
      ApplyAck(ackno, msg.window);
    }

    /** The part of receive after the acknowledgment number is known. */
    method ApplyAck(ackno: nat, window: u16)
      requires Valid()
      modifies this, timer
      ensures Valid() && View() == ReceiveAck(old(View()), ackno, window)
    {
      hide Acknowledge, ByteStream.Valid, ByteStream.View;
      if ackno > expAckno {
        return;
      }
      finAcked := finSent && ackno == expAckno;
      var newData := ackno > lastAckno;
      if ackno <= lastAckno {
        wnd := if ackno + window > lastAckno then ackno + window - lastAckno else 0;
      } else {
        NewDataAcked(ackno, window);
      }
      if ost == [] {
        timer.TurnOff();
      } else if newData {
        timer.Reset(curRto);
      }
    }

    /** The branch of receive for an acknowledgment of new data. */
    method NewDataAcked(ackno: nat, window: u16)
      requires Valid()
      modifies this
      ensures Valid()
      ensures View() == old(View()).(curRto := initialRto, retxCnt := 0, conRetx := false,
                                     lastAckno := ackno, wnd := window, ost := Acknowledge(old(ost), ackno))
    {
      hide ByteStream.Valid, ByteStream.View;
      curRto, retxCnt, conRetx := initialRto, 0, false;
      lastAckno, wnd := ackno, window;
      EraseAcknowledged(ackno);
    }

    /** Erase from the front the segments that lie entirely below ackno. */
    method EraseAcknowledged(ackno: nat)
      modifies this`ost
      ensures ost == Acknowledge(old(ost), ackno)
    {
      while ost != []
        invariant Acknowledge(ost, ackno) == Acknowledge(old(ost), ackno)
        decreases |ost|
      {
        if ost[0].seqno + Length(ost[0].msg) <= ackno {
          ost := ost[1..];
        } else {
          break;
        }
      }
    }

    method Tick(ms: u64) returns (sent: seq<SenderMessage>)
      requires Valid()
      modifies this, timer
      ensures Valid() && Sent(View(), sent) == Model.Tick(old(View()), ms)
    {
      hide ByteStream.Valid, ByteStream.View;
      sent := [];
      if !timer.running {
        return;
      }
      timer.Grow(ms);
      if !timer.expired {
        return;
      }
      if ost == [] {
        timer.TurnOff();
        return;
      }
      sent := [ost[0].msg];
      if wnd != 0 {
        if !conRetx {
          retxCnt, conRetx := 1, true;
        } else {
          retxCnt := retxCnt + 1;
        }
        curRto := U64(curRto * 2);
      }
      timer.Reset(curRto);
    }
  }
}
