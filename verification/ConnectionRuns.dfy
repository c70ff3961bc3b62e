/** What every call on a connection keeps: forwarding, and what an inactive connection means. */
module ConnectionRuns {
  import opened Numbers
  import opened TcpSegments
  import RR = ReassemblyRefinement
  import S = Senders
  import SL = SenderLedger
  import R = Receivers
  import RW = ReceiverWindow
  import opened Connections

  // ---------- forwarding ----------

  /** The header of `seg` with the fields that the connection fills in on the way out. */
  predicate Copy(out: Segment, seg: Segment) {
    out == seg.(header := seg.header.(ack := out.header.ack, ackno := out.header.ackno,
                                      win := out.header.win, rst := out.header.rst))
  }

  /** Everything the sender made and that left its queue was forwarded once, in order. */
  ghost predicate Forwarding(c: Connection) {
    && SL.QueueLogged(c.sender) && |c.segmentsOut| == SL.Forwarded(c.sender)
    && forall i :: 0 <= i < |c.segmentsOut| ==> Copy(c.segmentsOut[i], c.sender.log[i].seg)
  }

  /** The receiver's fields in an outgoing header. */
  predicate StampedBy(r: R.Receiver, out: Segment)
    requires r.reassembler.output.Bounded()
  {
    && out.header.ack == r.synReceived
    && (r.synReceived ==> out.header.ackno == r.ackno)
    && out.header.win == Min(r.WindowSize(), 0xffff)
  }

  /** What was queued stays queued, and every new segment carries the current state of the receiver. */
  ghost predicate Queues(c: Connection, c': Connection) {
    && c.segmentsOut <= c'.segmentsOut && c'.receiver.reassembler.output.Bounded()
    && forall i :: |c.segmentsOut| <= i < |c'.segmentsOut| ==> StampedBy(c'.receiver, c'.segmentsOut[i])
  }

  /** Segments made by the sender carry no acknowledgment yet. */
  ghost predicate PlainQueue(s: S.Sender) {
    forall i :: 0 <= i < |s.segmentsOut| ==> !s.segmentsOut[i].header.ack && !s.segmentsOut[i].header.rst
  }

  lemma QueueIsPlain(s: S.Sender)
    requires SL.Inv(s) && SL.QueueLogged(s)
    ensures PlainQueue(s)
  {
    forall i | 0 <= i < |s.segmentsOut| ensures !s.segmentsOut[i].header.ack && !s.segmentsOut[i].header.rst {
      var n := s.log[|s.log| - |s.segmentsOut| + i];
      assert SL.Genuine(n, SL.SourceOf(s));
    }
  }

  // ---------- closing ----------

  predicate Errors(c: Connection) {
    c.sender.stream.error && c.receiver.Output().error
  }

  /** The inbound stream ended, FIN was sent, and every outbound sequence number is acknowledged. */
  predicate Finished(c: Connection) {
    && c.receiver.Output().ended
    && c.sender.finSent && c.sender.recvAckno == c.sender.stream.BytesWritten() + 2
  }

  ghost predicate Closing(c: Connection) {
    && c.sender.stream.error == c.receiver.Output().error
    && (!c.linger ==> c.receiver.Output().ended)
    && (!c.active ==> Errors(c) || Finished(c))
  }

  ghost predicate Core(c: Connection) {
    SL.Inv(c.sender) && RW.Inv(c.receiver) && Forwarding(c) && Closing(c)
  }

  /** The invariant between calls: the sender's queue is empty. */
  ghost predicate Inv(c: Connection) {
    Core(c) && c.sender.segmentsOut == []
  }

  // ---------- parts of calls ----------

  /** Once everything is acknowledged it stays so, because the stream has ended. */
  lemma FinishedStays(s: S.Sender, s': S.Sender)
    requires SL.Inv(s) && SL.Inv(s') && SL.Advances(s, s')
    requires s.finSent && s.recvAckno == s.stream.BytesWritten() + 2
    ensures s'.finSent && s'.recvAckno == s'.stream.BytesWritten() + 2
  {
    assert |s.stream.History()| == s.stream.BytesWritten();
    assert |s'.stream.History()| == s'.stream.BytesWritten();
    assert SL.SourceOf(s').history == SL.SourceOf(s).history;
  }

  lemma SenderMoves(c: Connection, s': S.Sender)
    requires Core(c) && SL.Inv(s') && SL.Advances(c.sender, s')
    ensures Core(c.(sender := s'))
  {
    var c' := c.(sender := s');
    if c.sender.finSent && c.sender.recvAckno == c.sender.stream.BytesWritten() + 2 {
      FinishedStays(c.sender, s');
    }
    forall i | 0 <= i < |c.segmentsOut| ensures Copy(c'.segmentsOut[i], s'.log[i].seg) {
      assert s'.log[i] == c.sender.log[i];
    }
  }

  /** The sender with a shorter queue: everything but the queue is as before. */
  lemma QueueIrrelevant(s: S.Sender, s': S.Sender)
    requires SL.Inv(s) && s' == s.(segmentsOut := s'.segmentsOut)
    ensures SL.Inv(s')
  {
    assert SL.SourceOf(s') == SL.SourceOf(s);
  }

  lemma StampCopies(r: R.Receiver, seg: Segment)
    requires r.reassembler.output.Bounded() && !seg.header.ack
    ensures Copy(Stamp(r, seg), seg) && StampedBy(r, Stamp(r, seg))
  {
  }

  /** Appending the stamped queue appends copies of the last logged segments. */
  lemma DrainCopies(c: Connection, stamped: seq<Segment>, i: nat)
    requires Forwarding(c) && PlainQueue(c.sender) && Bounded(c) && stamped == StampAll(c.receiver, c.sender.segmentsOut)
    requires i < |c.segmentsOut + stamped|
    ensures i < |c.sender.log| && Copy((c.segmentsOut + stamped)[i], c.sender.log[i].seg)
    ensures i >= |c.segmentsOut| ==> StampedBy(c.receiver, (c.segmentsOut + stamped)[i])
  {
    if i >= |c.segmentsOut| {
      StampCopies(c.receiver, c.sender.segmentsOut[i - |c.segmentsOut|]);
    }
  }

  lemma DrainKeeps(c: Connection)
    requires Core(c)
    ensures Inv(Drain(c)) && Queues(c, Drain(c)) && Drain(c).receiver == c.receiver
  {
    var stamped, c' := StampAll(c.receiver, c.sender.segmentsOut), Drain(c);
    QueueIsPlain(c.sender);
    QueueIrrelevant(c.sender, c'.sender);
    assert c'.segmentsOut == c.segmentsOut + stamped && c'.sender.log == c.sender.log;
    forall i | 0 <= i < |c'.segmentsOut|
      ensures Copy(c'.segmentsOut[i], c'.sender.log[i].seg)
      ensures i >= |c.segmentsOut| ==> StampedBy(c'.receiver, c'.segmentsOut[i])
    {
      DrainCopies(c, stamped, i);
    }
  }

  lemma ForwardFrontKeeps(c: Connection, rst: bool)
    requires Core(c) && |c.sender.segmentsOut| == 1
    ensures Inv(ForwardFront(c, rst)) && Queues(c, ForwardFront(c, rst))
    ensures ForwardFront(c, rst).receiver == c.receiver
  {
    var c' := ForwardFront(c, rst);
    QueueIsPlain(c.sender);
    QueueIrrelevant(c.sender, c'.sender);
    StampCopies(c.receiver, c.sender.segmentsOut[0]);
    var out := c'.segmentsOut[|c.segmentsOut|];
    assert Copy(out, c.sender.segmentsOut[0]) && StampedBy(c.receiver, out);
  }

  lemma AbortKeeps(c: Connection)
    requires Core(c)
    ensures Core(Abort(c)) && Abort(c).sender.segmentsOut == c.sender.segmentsOut
    ensures Abort(c).segmentsOut == c.segmentsOut && !Abort(c).active && Errors(Abort(c))
    ensures forall out :: StampedBy(c.receiver, out) ==> StampedBy(Abort(c).receiver, out)
  {
    var c' := Abort(c);
    assert SL.SourceOf(c'.sender) == SL.SourceOf(c.sender);
  }

  lemma SendAckKeeps(c: Connection)
    requires Inv(c)
    ensures Inv(SendAck(c)) && Queues(c, SendAck(c)) && SendAck(c).receiver == c.receiver
  {
    SL.SendEmptyKeeps(c.sender);
    SenderMoves(c, S.SendEmpty(c.sender));
    ForwardFrontKeeps(c.(sender := S.SendEmpty(c.sender)), false);
  }

  lemma SendResetKeeps(c: Connection)
    requires Inv(c)
    ensures Inv(SendReset(c)) && Queues(c, SendReset(c)) && !SendReset(c).active && Errors(SendReset(c))
  {
    assert DropQueue(c) == c;
    SL.SendEmptyKeeps(c.sender);
    SenderMoves(c, S.SendEmpty(c.sender));
    var c1 := c.(sender := S.SendEmpty(c.sender));
    ForwardFrontKeeps(c1, true);
    AbortKeeps(ForwardFront(c1, true));
  }

  lemma TransmitKeeps(c: Connection)
    requires Core(c)
    ensures Inv(Transmit(c)) && Queues(c, Transmit(c)) && Transmit(c).receiver == c.receiver
  {
    SL.FillKeeps(c.sender);
    SenderMoves(c, S.FillWindow(c.sender));
    DrainKeeps(c.(sender := S.FillWindow(c.sender)));
  }

  lemma QueuesTrans(c: Connection, c1: Connection, c2: Connection)
    requires Queues(c, c1) && Queues(c1, c2) && c2.receiver == c1.receiver
    ensures Queues(c, c2)
  {
    forall i | |c.segmentsOut| <= i < |c2.segmentsOut| ensures StampedBy(c2.receiver, c2.segmentsOut[i]) {
      if i < |c1.segmentsOut| {
        assert c2.segmentsOut[i] == c1.segmentsOut[i];
      }
    }
  }

  // ---------- arriving segments ----------

  /** The receiver's streams never lose their end or their error. */
  lemma ReceiverKeeps(r: R.Receiver, seg: Segment)
    requires RW.Inv(r) && R.Deliverable(r, seg)
    ensures RW.Inv(R.SegmentReceived(r, seg))
    ensures r.Output().ended ==> R.SegmentReceived(r, seg).Output().ended
    ensures R.SegmentReceived(r, seg).Output().error == r.Output().error
  {
    RW.SegmentKeeps(r, seg);
    if !R.Ignores(r, seg) {
      RW.PushPayloadKeeps(R.Open(r, seg), seg);
    }
  }

  lemma HearKeeps(c: Connection, seg: Segment)
    requires Inv(c) && R.Deliverable(c.receiver, seg)
    ensures Inv(Hear(c, seg)) && Hear(c, seg).segmentsOut == c.segmentsOut
    ensures Inv(UpdateLinger(Hear(c, seg))) && UpdateLinger(Hear(c, seg)).segmentsOut == c.segmentsOut
    ensures Hear(c, seg).sender == c.sender && UpdateLinger(Hear(c, seg)).sender == c.sender
    ensures UpdateLinger(Hear(c, seg)).receiver == Hear(c, seg).receiver
  {
    ReceiverKeeps(c.receiver, seg);
  }

  lemma ResetKeeps(c: Connection, ack: bool)
    requires Inv(c)
    ensures Inv(ResetReceived(c, ack)) && Queues(c, ResetReceived(c, ack))
    ensures ResetReceived(c, ack) == c || (!ResetReceived(c, ack).active && Errors(ResetReceived(c, ack)))
  {
    if c.sender.synSent {
      if InSynSent(c.sender) {
        assert DropQueue(c) == c;
        AbortKeeps(c);
      } else {
        SendResetKeeps(c);
      }
    }
  }

  lemma AckReceivedKeeps(c: Connection, seg: Segment)
    requires Inv(c) && SL.Small(c.sender)
    ensures Inv(AckReceived(c, seg)) && Queues(c, AckReceived(c, seg)) && AckReceived(c, seg).receiver == c.receiver
  {
    if S.AckAcceptable(c.sender, seg.header.ackno) {
      var s' := S.AckReceived(c.sender, seg.header.ackno, seg.header.win);
      SL.AckKeeps(c.sender, seg.header.ackno, seg.header.win);
      SenderMoves(c, s');
      TransmitKeeps(c.(sender := s'));
    } else {
      SendAckKeeps(c);
    }
  }

  lemma RespondKeeps(c: Connection)
    requires Inv(c)
    ensures Inv(Respond(c)) && Queues(c, Respond(c)) && Respond(c).receiver == c.receiver
  {
    var filled := c.(sender := S.FillWindow(c.sender));
    SL.FillKeeps(c.sender);
    SenderMoves(c, filled.sender);
    if filled.sender.segmentsOut == [] {
      SendAckKeeps(filled);
    } else {
      DrainKeeps(filled);
    }
  }

  lemma ProceedKeeps(c: Connection, seg: Segment)
    requires Inv(c) && SL.Small(c.sender)
    ensures Inv(Proceed(c, seg)) && Queues(c, Proceed(c, seg)) && Proceed(c, seg).receiver == c.receiver
  {
    if !Unanswered(c, seg) {
      var c1 := if seg.header.ack then AckReceived(c, seg) else c;
      if seg.header.ack {
        AckReceivedKeeps(c, seg);
      }
      if seg.Length() > 0 {
        RespondKeeps(c1);
        QueuesTrans(c, c1, Respond(c1));
      }
    }
  }

  lemma SegmentKeeps(c: Connection, seg: Segment)
    requires Inv(c) && SL.Small(c.sender) && R.Deliverable(c.receiver, seg)
    ensures Inv(SegmentReceived(c, seg)) && Queues(c, SegmentReceived(c, seg))
  {
    HearKeeps(c, seg);
    if seg.header.rst {
      ResetKeeps(Hear(c, seg), seg.header.ack);
    } else {
      ProceedKeeps(UpdateLinger(Hear(c, seg)), seg);
    }
  }

  // ---------- time ----------

  lemma ElapseKeeps(c: Connection, ms: nat)
    requires Inv(c)
    ensures Core(Elapse(c, ms)) && |Elapse(c, ms).sender.segmentsOut| <= 1
    ensures Elapse(c, ms).sender.segmentsOut != [] <==> S.Expires(c.sender, ms)
  {
    SL.TickKeeps(c.sender, ms);
    SenderMoves(c, S.Tick(c.sender, ms));
  }

  lemma RetransmitKeeps(c: Connection)
    requires Core(c) && |c.sender.segmentsOut| <= 1
    ensures Inv(Retransmit(c)) && Queues(c, Retransmit(c))
  {
    if c.sender.segmentsOut != [] {
      ForwardFrontKeeps(c, GivesUp(c));
      if GivesUp(c) {
        AbortKeeps(ForwardFront(c, true));
      }
    }
  }

  /** Whether `ms` from now nothing keeps the connection open: all is done, and it need not linger any longer. */
  predicate Done(c: Connection, ms: nat) {
    && Finished(c)
    && (c.linger ==> c.receiver.Output().Eof() && c.sinceReceived + ms >= 10 * c.rtTimeout)
  }

  lemma CloseKeeps(c: Connection)
    requires Inv(c)
    ensures !CloseIfDone(c).active <==> !c.active || Done(c, 0)
    ensures Inv(CloseIfDone(c)) && CloseIfDone(c).segmentsOut == c.segmentsOut && CloseIfDone(c).receiver == c.receiver
  {
    FinishedIff(c);
  }

  /** What the counters of the sender say about its stream. */
  lemma FinishedIff(c: Connection)
    requires SL.Inv(c.sender)
    ensures Finished(c) <==> c.receiver.Output().ended && AllAcknowledged(c.sender)
    ensures Finished(c) ==> c.sender.stream.Eof() && c.sender.outstanding == []
  {
    SL.ContiguousOrder(c.sender.outstanding, c.sender.recvAckno, c.sender.next, SL.SourceOf(c.sender));
  }

  lemma TickKeeps(c: Connection, ms: nat)
    requires Inv(c)
    ensures Inv(Tick(c, ms)) && Queues(c, Tick(c, ms))
  {
    ElapseKeeps(c, ms);
    RetransmitKeeps(Elapse(c, ms));
    CloseKeeps(Retransmit(Elapse(c, ms)));
    SameQueues(c, Elapse(c, ms), Retransmit(Elapse(c, ms)), Tick(c, ms));
  }

  lemma SameQueues(c: Connection, c1: Connection, c2: Connection, c3: Connection)
    requires c1.segmentsOut == c.segmentsOut && Queues(c1, c2)
    requires c3.segmentsOut == c2.segmentsOut && c3.receiver == c2.receiver
    ensures Queues(c, c3)
  {
  }

  // ---------- runs ----------

  datatype Call =
    | ConnectCall | WriteCall(data: bytes) | EndCall | ReadCall(count: nat)
    | SegmentCall(seg: Segment) | TickCall(ms: nat)

  /** No write after the end of input; segments are ones the reassembler can take; less than 2^31 in flight. */
  predicate LegalCall(c: Connection, call: Call) {
    && Bounded(c) && c.sender.stream.Bounded() && SL.Small(c.sender)
    && (call.WriteCall? ==> !c.sender.stream.ended)
    && (call.SegmentCall? ==> R.Deliverable(c.receiver, call.seg))
  }

  function Apply(c: Connection, call: Call): Connection
    requires LegalCall(c, call)
  {
    match call
    case ConnectCall => Connect(c)
    case WriteCall(data) => Write(c, data)
    case EndCall => EndInput(c)
    case ReadCall(count) => c.(receiver := R.ReadOutput(c.receiver, count))
    case SegmentCall(seg) => SegmentReceived(c, seg)
    case TickCall(ms) => Tick(c, ms)
  }

  /** Every call keeps the invariant and stamps what it queues with the receiver's current state. */
  lemma CallKeeps(c: Connection, call: Call)
    requires Inv(c) && LegalCall(c, call)
    ensures Inv(Apply(c, call)) && Queues(c, Apply(c, call))
  {
    match call
    case ConnectCall => TransmitKeeps(c);
    case WriteCall(data) =>
      SL.WriteKeeps(c.sender, data);
      SenderMoves(c, S.Write(c.sender, data));
      TransmitKeeps(c.(sender := S.Write(c.sender, data)));
    case EndCall =>
      SL.EndInputKeeps(c.sender);
      SenderMoves(c, S.EndInput(c.sender));
      TransmitKeeps(c.(sender := S.EndInput(c.sender)));
    case ReadCall(count) =>
      RW.ReadKeeps(c.receiver, count);
      RR.ReadKeeps(c.receiver.reassembler, count);
    case SegmentCall(seg) => SegmentKeeps(c, seg);
    case TickCall(ms) => TickKeeps(c, ms);
  }

  ghost predicate IsRun(
    states: seq<Connection>, calls: seq<Call>, sendCapacity: nat, recvCapacity: nat, rtTimeout: u16, isn: u32)
  {
    && |states| == |calls| + 1 && states[0] == NewConnection(sendCapacity, recvCapacity, rtTimeout, isn)
    && forall i :: 0 <= i < |calls| ==> LegalCall(states[i], calls[i]) && states[i + 1] == Apply(states[i], calls[i])
  }

  lemma NewConnectionInv(sendCapacity: nat, recvCapacity: nat, rtTimeout: u16, isn: u32)
    ensures Inv(NewConnection(sendCapacity, recvCapacity, rtTimeout, isn))
  {
    var c := NewConnection(sendCapacity, recvCapacity, rtTimeout, isn);
    assert SL.Inv(c.sender);
  }

  /**
   In every state of every run, what the sender made has been forwarded once and
   in order, and an inactive connection has either failed on both streams, or its
   inbound stream has ended and its FIN and all before it are acknowledged.
   */
  lemma {:induction false} RunKeeps(
    states: seq<Connection>, calls: seq<Call>, sendCapacity: nat, recvCapacity: nat, rtTimeout: u16, isn: u32, k: nat)
    requires IsRun(states, calls, sendCapacity, recvCapacity, rtTimeout, isn) && k < |states|
    ensures Inv(states[k])
    ensures |states[k].segmentsOut| == |states[k].sender.log|
    ensures forall i :: 0 <= i < |states[k].segmentsOut| ==> Copy(states[k].segmentsOut[i], states[k].sender.log[i].seg)
    ensures !states[k].active ==> Errors(states[k]) || Finished(states[k])
    ensures k > 0 ==> Queues(states[k - 1], states[k])
    decreases k
  {
    if k == 0 {
      NewConnectionInv(sendCapacity, recvCapacity, rtTimeout, isn);
    } else {
      RunKeeps(states, calls, sendCapacity, recvCapacity, rtTimeout, isn, k - 1);
      CallKeeps(states[k - 1], calls[k - 1]);
    }
  }
}
