/** A TCP endpoint: a sender and a receiver that exchange acknowledgments, with reset, linger and give-up. */
module Connections {
  import opened Numbers
  import opened TcpSegments
  import S = Senders
  import R = Receivers

  const MAX_RETX_ATTEMPTS: nat := 8

  /** `segmentsOut` collects every segment queued for the owner, who only takes them away. */
  datatype Connection = Connection(
    receiver: R.Receiver, sender: S.Sender, segmentsOut: seq<Segment>,
    linger: bool, active: bool, sinceReceived: nat, rtTimeout: u16)

  function NewConnection(sendCapacity: nat, recvCapacity: nat, rtTimeout: u16, isn: u32): Connection {
    Connection(R.NewReceiver(recvCapacity), S.NewSender(sendCapacity, rtTimeout, isn), [], true, true, 0, rtTimeout)
  }

  predicate Bounded(c: Connection) {
    c.receiver.reassembler.output.Bounded()
  }

  // ---------- sending ----------

  /** The receiver's part of a header: the acknowledgment, and the window capped to 16 bits. */
  function Stamp(r: R.Receiver, seg: Segment): Segment
    requires r.reassembler.output.Bounded()
  {
    var win := Min(r.WindowSize(), 0xffff);
    match r.Ackno()
    case None => seg.(header := seg.header.(win := win))
    case Some(ackno) => seg.(header := seg.header.(win := win, ack := true, ackno := ackno))
  }

  function StampAll(r: R.Receiver, segs: seq<Segment>): (out: seq<Segment>)
    requires r.reassembler.output.Bounded()
    ensures |out| == |segs| && forall i :: 0 <= i < |segs| ==> out[i] == Stamp(r, segs[i])
  {
    if segs == [] then [] else [Stamp(r, segs[0])] + StampAll(r, segs[1..])
  }

  /** Forwards the sender's whole queue. */
  function Drain(c: Connection): Connection
    requires Bounded(c)
  {
    c.(segmentsOut := c.segmentsOut + StampAll(c.receiver, c.sender.segmentsOut),
       sender := c.sender.(segmentsOut := []))
  }

  /** Forwards the front of the sender's queue, as a reset if so told. */
  function ForwardFront(c: Connection, rst: bool): Connection
    requires Bounded(c) && c.sender.segmentsOut != []
  {
    var seg := Stamp(c.receiver, c.sender.segmentsOut[0]);
    c.(segmentsOut := c.segmentsOut + [seg.(header := seg.header.(rst := seg.header.rst || rst))],
       sender := c.sender.(segmentsOut := c.sender.segmentsOut[1..]))
  }

  /** An empty segment that carries the acknowledgment. */
  function SendAck(c: Connection): Connection
    requires Bounded(c)
  {
    ForwardFront(c.(sender := S.SendEmpty(c.sender)), false)
  }

  /** Both streams in error, and the connection dead. */
  function Abort(c: Connection): Connection {
    c.(active := false,
       receiver := c.receiver.(reassembler :=
         c.receiver.reassembler.(output := c.receiver.reassembler.output.SetError())),
       sender := c.sender.(stream := c.sender.stream.SetError()))
  }

  function DropQueue(c: Connection): Connection {
    c.(sender := c.sender.(segmentsOut := []))
  }

  function SendReset(c: Connection): Connection
    requires Bounded(c)
  {
    Abort(ForwardFront(DropQueue(c).(sender := S.SendEmpty(DropQueue(c).sender)), true))
  }

  // ---------- receiving ----------

  /** Only a SYN is in flight and nothing is acknowledged. */
  predicate InSynSent(s: S.Sender) {
    s.next == 1 && s.bytesInFlight == s.next
  }

  function ResetReceived(c: Connection, ack: bool): Connection
    requires Bounded(c)
  {
    if !c.sender.synSent then c
    else if InSynSent(c.sender) then (if ack then Abort(DropQueue(c)) else c)
    else SendReset(c)
  }

  /** The peer ended first, so there is no need to linger. */
  function UpdateLinger(c: Connection): Connection {
    if c.receiver.Output().Eof() && !c.sender.stream.Eof() && c.sender.synSent then c.(linger := false) else c
  }

  function Transmit(c: Connection): Connection
    requires Bounded(c)
  {
    var sender := S.FillWindow(c.sender);
    Drain(c.(sender := sender))
  }

  function AckReceived(c: Connection, seg: Segment): Connection
    requires Bounded(c)
  {
    if S.AckAcceptable(c.sender, seg.header.ackno) then
      Transmit(c.(sender := S.AckReceived(c.sender, seg.header.ackno, seg.header.win)))
    else SendAck(c)
  }

  /** A segment that occupies sequence numbers is answered by data, or else by an acknowledgment. */
  function Respond(c: Connection): Connection
    requires Bounded(c)
  {
    var filled := c.(sender := S.FillWindow(c.sender));
    if filled.sender.segmentsOut == [] then SendAck(filled) else Drain(filled)
  }

  /** An acknowledgment before the SYN was sent, or beyond what was sent before it was acknowledged. */
  predicate Unanswered(c: Connection, seg: Segment) {
    && seg.header.ack
    && (!c.sender.synSent || (!S.AckAcceptable(c.sender, seg.header.ackno) && !c.sender.synAcked))
  }

  /** The sender's part: take the acknowledgment, then answer. */
  function Proceed(c: Connection, seg: Segment): Connection
    requires Bounded(c)
  {
    if Unanswered(c, seg) then c
    else
      var c1 := if seg.header.ack then AckReceived(c, seg) else c;
      if seg.Length() > 0 then Respond(c1) else c1
  }

  function Hear(c: Connection, seg: Segment): (c': Connection)
    requires R.Deliverable(c.receiver, seg)
    ensures Bounded(c')
  {
    c.(sinceReceived := 0, receiver := R.SegmentReceived(c.receiver, seg))
  }

  function SegmentReceived(c: Connection, seg: Segment): (c': Connection)
    requires R.Deliverable(c.receiver, seg)
  {
    if seg.header.rst then ResetReceived(Hear(c, seg), seg.header.ack)
    else Proceed(UpdateLinger(Hear(c, seg)), seg)
  }

  // ---------- time and the application ----------

  predicate GivesUp(c: Connection) {
    c.sender.retransmissions > MAX_RETX_ATTEMPTS
  }

  /** Forwards a retransmission, or gives up. */
  function Retransmit(c: Connection): (c': Connection)
    requires Bounded(c)
    ensures Bounded(c')
  {
    if c.sender.segmentsOut == [] then c
    else if GivesUp(c) then Abort(ForwardFront(c, true))
    else ForwardFront(c, false)
  }

  predicate AllAcknowledged(s: S.Sender) {
    s.finSent && s.bytesInFlight == 0
  }

  function CloseIfDone(c: Connection): Connection {
    if || (!c.linger && AllAcknowledged(c.sender))
       || (&& c.receiver.Output().Eof() && c.sender.stream.Eof() && AllAcknowledged(c.sender)
           && c.sinceReceived >= 10 * c.rtTimeout)
    then c.(active := false)
    else c
  }

  function Elapse(c: Connection, ms: nat): Connection {
    c.(sinceReceived := c.sinceReceived + ms, sender := S.Tick(c.sender, ms))
  }

  function Tick(c: Connection, ms: nat): (c': Connection)
    requires Bounded(c)
    ensures Bounded(c')
  {
    CloseIfDone(Retransmit(Elapse(c, ms)))
  }

  function Connect(c: Connection): Connection
    requires Bounded(c)
  {
    Transmit(c)
  }

  function Write(c: Connection, data: bytes): Connection
    requires Bounded(c) && c.sender.stream.Bounded()
  {
    Transmit(c.(sender := S.Write(c.sender, data)))
  }

  function EndInput(c: Connection): Connection
    requires Bounded(c)
  {
    Transmit(c.(sender := S.EndInput(c.sender)))
  }

  // ---------- the imperative connection ----------

  class TCPConnection {
    const receiver: R.TCPReceiver
    const sender: S.TCPSender
    const rtTimeout: u16
    var segmentsOut: seq<Segment>
    var linger: bool
    var active: bool
    var sinceReceived: nat

    /** The objects a connection is made of. */
    ghost function Parts(): set<object> {
      {this, sender, sender.stream, sender.stream.buffer,
       receiver, receiver.reassembler, receiver.reassembler.output, receiver.reassembler.output.buffer}
    }

    ghost predicate Valid()
      reads Parts()
    {
      && sender.Valid() && receiver.Valid()
      && sender.stream != receiver.reassembler.output
      && sender.stream.buffer != receiver.reassembler.output.buffer
    }

    ghost function View(): Connection
      reads Parts()
    {
      Connection(receiver.View(), sender.View(), segmentsOut, linger, active, sinceReceived, rtTimeout)
    }

    constructor (sendCapacity: nat, recvCapacity: nat, rtTimeout: u16, isn: u32)
      ensures Valid() && View() == NewConnection(sendCapacity, recvCapacity, rtTimeout, isn)
    {
      receiver := new R.TCPReceiver(recvCapacity);
      sender := new S.TCPSender(sendCapacity, rtTimeout, isn);
      this.rtTimeout := rtTimeout;
      segmentsOut, linger, active, sinceReceived := [], true, true, 0;
    }

    method SetAckAndWindow(seg: Segment) returns (stamped: Segment)
      requires Valid()
      ensures stamped == Stamp(receiver.View(), seg)
    {
      stamped := seg;
      var ackno := receiver.CurrentAckno();
      if ackno.Some? {
        stamped := stamped.(header := stamped.header.(ack := true, ackno := ackno.value));
      }
      if receiver.WindowSize() < 0xffff {
        stamped := stamped.(header := stamped.header.(win := receiver.WindowSize()));
      } else {
        stamped := stamped.(header := stamped.header.(win := 0xffff));
      }
    }

    method ForwardQueue()
      requires Valid()
      modifies this`segmentsOut, sender`segmentsOut
      ensures Valid() && View() == Drain(old(View()))
    {
      ghost var goal := Drain(View());
      while sender.segmentsOut != []
        invariant Valid() && Drain(View()) == goal
        decreases |sender.segmentsOut|
      {
        var seg := SetAckAndWindow(sender.segmentsOut[0]);
        ghost var before := View();
        sender.segmentsOut := sender.segmentsOut[1..];
        segmentsOut := segmentsOut + [seg];
        DrainFirst(before, View());
      }
    }

    method PopAndForward(rst: bool)
      requires Valid() && sender.segmentsOut != []
      modifies this`segmentsOut, sender`segmentsOut
      ensures Valid() && View() == ForwardFront(old(View()), rst)
    {
      var seg := SetAckAndWindow(sender.segmentsOut[0]);
      sender.segmentsOut := sender.segmentsOut[1..];
      if rst {
        seg := seg.(header := seg.header.(rst := true));
      }
      segmentsOut := segmentsOut + [seg];
    }

    method SendAckSegment()
      requires Valid()
      modifies this`segmentsOut, sender`segmentsOut, sender`log
      ensures Valid() && View() == SendAck(old(View()))
    {
      sender.SendEmptySegment();
      PopAndForward(false);
    }

    method Die()
      requires Valid()
      modifies this`active, sender.stream, receiver.reassembler.output
      ensures Valid() && View() == Abort(old(View()))
    {
      active := false;
      receiver.reassembler.output.SetError();
      sender.stream.SetError();
    }

    method SendResetSegment()
      requires Valid()
      modifies Parts()
      ensures Valid() && View() == SendReset(old(View()))
    {
      sender.segmentsOut := [];
      sender.SendEmptySegment();
      PopAndForward(true);
      Die();
    }

    method ReceiveReset(ack: bool)
      requires Valid()
      modifies Parts()
      ensures Valid() && View() == ResetReceived(old(View()), ack)
    {
      if !sender.synSent {
        return;
      }
      if !ack && sender.next == 1 && sender.bytesInFlight == sender.next {
        return;
      }
      if ack && sender.next == 1 && sender.bytesInFlight == sender.next {
        sender.segmentsOut := [];
        Die();
        return;
      }
      SendResetSegment();
    }

    method FillAndForward()
      requires Valid()
      modifies Parts()
      ensures Valid() && View() == Transmit(old(View()))
    {
      sender.FillTheWindow();
      ForwardQueue();
    }

    method ReceiveAck(seg: Segment) returns (ignored: bool)
      requires Valid() && sender.synSent
      modifies Parts()
      ensures Valid()
      ensures ignored == (!S.AckAcceptable(old(View()).sender, seg.header.ackno) && !old(sender.synAcked))
      ensures View() == if ignored then old(View()) else AckReceived(old(View()), seg)
    {
      ghost var before := View();
      var ok := sender.Acknowledge(seg.header.ackno, seg.header.win);
      if ok {
        assert View() == before.(sender := S.AckReceived(before.sender, seg.header.ackno, seg.header.win));
        FillAndForward();
        return false;
      }
      assert View() == before;
      if !sender.synAcked {
        return true;
      }
      SendAckSegment();
      return false;
    }

    method Answer()
      requires Valid()
      modifies Parts()
      ensures Valid() && View() == Respond(old(View()))
    {
      sender.FillTheWindow();
      if sender.segmentsOut == [] {
        SendAckSegment();
      } else {
        ForwardQueue();
      }
    }

    method SegmentArrives(seg: Segment)
      requires Valid() && R.Deliverable(receiver.View(), seg)
      modifies Parts()
      ensures Valid() && View() == SegmentReceived(old(View()), seg)
    {
      sinceReceived := 0;
      var ok := receiver.SegmentArrives(seg);
      assert View() == Hear(old(View()), seg);
      if seg.header.rst {
        ReceiveReset(seg.header.ack);
        return;
      }
      if receiver.reassembler.output.Eof() && !sender.stream.Eof() && sender.synSent {
        linger := false;
      }
      Continue(seg);
    }

    method Continue(seg: Segment)
      requires Valid()
      modifies Parts()
      ensures Valid() && View() == Proceed(old(View()), seg)
    {
      if seg.header.ack {
        if !sender.synSent {
          return;
        }
        var ignored := ReceiveAck(seg);
        if ignored {
          return;
        }
      }
      if seg.Length() > 0 {
        Answer();
      }
    }

    method ForwardRetransmission()
      requires Valid()
      modifies Parts()
      ensures Valid() && View() == Retransmit(old(View()))
    {
      if sender.segmentsOut != [] {
        if sender.retransmissions > MAX_RETX_ATTEMPTS {
          PopAndForward(true);
          Die();
        } else {
          PopAndForward(false);
        }
      }
    }

    method TimePasses(ms: nat)
      requires Valid()
      modifies Parts()
      ensures Valid() && View() == Tick(old(View()), ms)
    {
      CountTime(ms);
      ForwardRetransmission();
      CloseWhenDone();
    }

    method CountTime(ms: nat)
      requires Valid()
      modifies this`sinceReceived, sender
      ensures Valid() && View() == Elapse(old(View()), ms)
    {
      sinceReceived := sinceReceived + ms;
      sender.PassTime(ms);
    }

    method CloseWhenDone()
      requires Valid()
      modifies this`active
      ensures Valid() && View() == CloseIfDone(old(View()))
    {
      if !linger && sender.finSent && sender.bytesInFlight == 0 {
        active := false;
      }
      if receiver.reassembler.output.Eof() && sender.stream.Eof() && sender.finSent && sender.bytesInFlight == 0 {
        if sinceReceived >= 10 * rtTimeout {
          active := false;
        }
      }
    }

    method OpenConnection()
      requires Valid()
      modifies Parts()
      ensures Valid() && View() == Connect(old(View()))
    {
      FillAndForward();
    }

    method WriteData(data: bytes) returns (n: nat)
      requires Valid()
      modifies Parts()
      ensures Valid() && View() == Write(old(View()), data)
      ensures n == Min(|data|, old(View()).sender.stream.RemainingCapacity())
    {
      n := sender.stream.Write(data);
      FillAndForward();
    }

    method EndInputStream()
      requires Valid()
      modifies Parts()
      ensures Valid() && View() == EndInput(old(View()))
    {
      sender.stream.EndInput();
      FillAndForward();
    }
  }

  /** Forwarding the first queued segment and then the rest is forwarding them all. */
  lemma DrainFirst(c: Connection, c': Connection)
    requires Bounded(c) && c.sender.segmentsOut != []
    requires c' == c.(segmentsOut := c.segmentsOut + [Stamp(c.receiver, c.sender.segmentsOut[0])],
                      sender := c.sender.(segmentsOut := c.sender.segmentsOut[1..]))
    ensures Drain(c') == Drain(c)
  {
    var rest := StampAll(c.receiver, c.sender.segmentsOut[1..]);
    var first := Stamp(c.receiver, c.sender.segmentsOut[0]);
    assert c.segmentsOut + [first] + rest == c.segmentsOut + ([first] + rest);
  }
}
