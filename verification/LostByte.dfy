/**
 A run of the sender and the receiver in which the last byte of the stream is
 lost: the receiver's buffer of one byte is full, and the sender, which treats
 a zero window as one, sends the last byte together with FIN.
 */
module LostByte {
  import opened Numbers
  import opened WrappingIntegers
  import opened TcpSegments
  import Runs = ReassemblyRuns
  import opened Senders
  import SL = SenderLedger
  import opened Receivers
  import RW = ReceiverWindow
  import opened Network
  import EF = EarlyFins

  // ---------- the sender ----------

  /** The segment with the next byte of the stream, and FIN if it is the last. */
  function NextByte(s: Sender): Segment
    requires s.stream.buffer != []
  {
    Segment(PLAIN_HEADER.(seqno := Wrap(s.next, s.isn), fin := s.stream.ended && |s.stream.buffer| == 1),
            s.stream.buffer[..1])
  }

  /** `s'` has sent one more byte, and everything before it is acknowledged. */
  predicate SentOne(s: Sender, s': Sender)
    requires s.stream.buffer != []
  {
    && s'.log == s.log + [Numbered(s.next, NextByte(s))] && s'.next == s.next + NextByte(s).Length()
    && s'.recvAckno == s.next && s'.isn == s.isn && s'.synSent
    && s'.stream == s.stream.Pop(1) && (s'.finSent <==> NextByte(s).header.fin)
  }

  /** With nothing in flight and a window of one, filling sends one byte. */
  lemma FillSendsOne(s: Sender)
    requires s.synSent && s.synAcked && !s.finSent && s.next == s.recvAckno && EffectiveWindow(s) == 1
    requires s.stream.buffer != []
    ensures SentOne(s, FillWindow(s))
  {
    var w := EffectiveWindow(s);
    assert Room(s, w) == w;
    SliceIsNextByte(s, w, Sliced(s, w));
    LoopStops(Sliced(s, w), w);
  }

  lemma SliceIsNextByte(s: Sender, size: nat, s': Sender)
    requires s.synSent && !s.finSent && s.next == s.recvAckno && s.stream.buffer != [] && size == 1
    requires s' == Sliced(s, size)
    ensures SentOne(s, s') && Slice(s, size).1.Length() != 0
  {
  }

  lemma LoopStops(s: Sender, window: nat)
    requires s.next - s.recvAckno == window || (s.finSent && s.stream.Eof())
    ensures FillLoop(s, window) == s
  {
    FillReaches(s, s, window);
    assert Room(s, window) == 0 || (s.stream.Eof() && s.finSent);
    FillStops(s, s, window);
  }

  /** An acknowledgment of everything, with a window of at most one. */
  lemma AckSendsOne(s: Sender, window: u16)
    requires SL.Inv(s) && SL.Small(s) && s.synSent && !s.finSent && s.recvAckno < s.next && window <= 1
    requires s.stream.buffer != []
    ensures SentOne(s, AckReceived(s, Wrap(s.next, s.isn), window))
  {
    UnwrapNear(s.next, s.isn, s.next);
    SL.DroppedKeeps(s, s.next, window);
    var d := SL.Dropped(s, s.next, window);
    AllDropped(s, d);
    FillSendsOne(d);
  }

  lemma AllDropped(s: Sender, d: Sender)
    requires SL.Ledger(s) && SL.Covers(s, s.next, d.recvAckno)
    ensures d.recvAckno == s.next
  {
    LastBoundary(s.outstanding, s.recvAckno, s.next, SL.SourceOf(s));
  }

  lemma {:induction false} LastBoundary(segs: seq<Segment>, from: nat, to: nat, src: SL.Source)
    requires SL.Contiguous(segs, from, to, src)
    ensures SL.Boundary(segs, from, to)
    decreases |segs|
  {
    if segs != [] {
      LastBoundary(segs[1..], from + segs[0].Length(), to, src);
    }
  }

  // ---------- the receiver ----------

  /** The receiver after the SYN and, once `full`, the first byte. */
  ghost predicate Buffer(r: Receiver, isn: u32, full: bool) {
    && RW.Inv(r) && r.synReceived && !r.finReceived && r.isn == isn && !r.reassembler.eof && !r.Output().ended
    && r.reassembler.pieces == [] && r.reassembler.RightEdge() == 1
    && r.reassembler.first == (if full then 1 else 0)
  }

  lemma BufferWindow(r: Receiver, isn: u32, full: bool)
    requires Buffer(r, isn, full)
    ensures AbsAckno(r) == (if full then 2 else 1) && r.ackno == Wrap(AbsAckno(r), isn)
    ensures r.WindowSize() == (if full then 0 else 1)
  {
  }

  lemma SynOpens(r: Receiver, seg: Segment, isn: u32, capacity: nat)
    requires r == NewReceiver(capacity) && capacity == 1 && seg == RW.SynSegment(isn)
    ensures Deliverable(r, seg) && Buffer(SegmentReceived(r, seg), isn, false)
  {
    var r' := RW.AfterSyn(capacity, isn);
  }

  lemma FirstByteFills(r: Receiver, seg: Segment, isn: u32)
    requires Buffer(r, isn, false) && !seg.header.syn && !seg.header.fin && |seg.payload| == 1
    requires seg.header.seqno == Wrap(1, isn)
    ensures Deliverable(r, seg) && Buffer(SegmentReceived(r, seg), isn, true)
  {
    RW.EarlySegment(r, 1, seg);
    RW.PushPayloadKeeps(r, seg);
    RW.SegmentKeeps(r, seg);
    var q' := PushPayload(r, seg).reassembler;
    Runs.StoreDrained(r.reassembler, q', seg.payload, 0, 1);
  }

  lemma LastByteArrives(r: Receiver, seg: Segment, isn: u32)
    requires Buffer(r, isn, true) && |seg.payload| == 1 && seg.header.seqno == Wrap(2, isn)
    ensures Inbound(r, seg) && PayloadIndex(r, seg) == 1
  {
    UnwrapNear(2, isn, 1);
    RW.WindowStartExact(r);
    WindowEndBelow(WindowStart(r) + Max(r.WindowSize(), 1) - 1);
  }

  /** The last byte does not fit, and its FIN ends the output. */
  lemma LastByteIsLost(r: Receiver, seg: Segment, isn: u32)
    requires Buffer(r, isn, true) && !seg.header.syn && seg.header.fin && |seg.payload| == 1
    requires seg.header.seqno == Wrap(2, isn)
    ensures Deliverable(r, seg)
    ensures var r' := SegmentReceived(r, seg);
            RW.Inv(r') && r'.Output().ended && r'.reassembler.first == 1
  {
    LastByteArrives(r, seg, isn);
    RW.PushPayloadKeeps(r, seg);
    RW.SegmentKeeps(r, seg);
    Runs.StoreDrained(r.reassembler, PushPayload(r, seg).reassembler, seg.payload, 1, 1);
  }

  // ---------- the run ----------

  /** Both ends after `sent` bytes of two, with everything before the last segment acknowledged. */
  ghost predicate Stage(net: Net, x: u8, y: u8, sent: nat) {
    && Inv(net) && net.sender.synSent && |net.sender.log| == sent + 1
    && net.sender.stream.ended && net.sender.stream.History() == [x, y] && net.sender.stream.BytesRead() == sent
    && net.sender.recvAckno == sent && net.sender.next == sent + 1 + SL.Count(sent == 2)
    && (net.sender.finSent <==> sent == 2)
    && net.sender.log[sent].at == sent
    && (sent >= 1 ==> net.sender.log[sent].seg == LastSent(net.sender.isn, if sent == 1 then x else y, sent))
  }

  function LastSent(isn: u32, b: u8, sent: nat): Segment {
    Segment(PLAIN_HEADER.(seqno := Wrap(sent, isn), fin := sent == 2), [b])
  }

  /** The application writes two bytes and ends, and the SYN is sent. */
  lemma Opening(x: u8, y: u8, sendCapacity: nat, timeout: u16, isn: u32, recvCapacity: nat)
    returns (states: seq<Net>, events: seq<Event>)
    requires sendCapacity >= 2
    ensures IsRun(states, events, sendCapacity, timeout, isn, recvCapacity)
    ensures var net := states[|events|];
            && Stage(net, x, y, 0) && net.receiver == NewReceiver(recvCapacity) && net.sender.isn == isn
            && net.sender.log[0].seg == RW.SynSegment(isn)
  {
    var net := NewNet(sendCapacity, timeout, isn, recvCapacity);
    var s1 := Write(net.sender, [x, y]);
    assert s1.stream.buffer == [x, y];
    var s2 := EndInput(s1);
    var s3 := FillWindow(s2);
    SL.FirstFill(s2);
    states, events := [net], [];
    states, events := RunSnoc(states, events, AppWrites([x, y]), net.(sender := s1),
                              sendCapacity, timeout, isn, recvCapacity);
    states, events := RunSnoc(states, events, AppEnds, net.(sender := s2), sendCapacity, timeout, isn, recvCapacity);
    states, events := RunSnoc(states, events, SenderFills, net.(sender := s3), sendCapacity, timeout, isn, recvCapacity);
    RunIsSafe(states, events, sendCapacity, timeout, isn, recvCapacity, |events|);
  }

  /** The last segment arrives. */
  lemma SegmentStep(net: Net, n: Numbered, x: u8, y: u8, sent: nat) returns (net': Net)
    requires Stage(net, x, y, sent) && sent <= 1 && n == net.sender.log[sent] && Deliverable(net.receiver, n.seg)
    requires !n.seg.header.fin && net.receiver.checkpoint <= 2
    ensures Next(net, SegmentArrives(n), net') && Inv(net')
    ensures net' == net.(receiver := SegmentReceived(net.receiver, n.seg))
  {
    net' := net.(receiver := SegmentReceived(net.receiver, n.seg));
    StepKeeps(net, SegmentArrives(n), net');
  }

  /** It is acknowledged, and the acknowledgment arrives. */
  lemma AckStep(net: Net, x: u8, y: u8, sent: nat, full: bool) returns (net1: Net, net2: Net)
    requires Stage(net, x, y, sent) && sent <= 1 && full == (sent == 1) && Buffer(net.receiver, net.sender.isn, full)
    ensures Next(net, ReceiverReplies, net1) && Next(net1, AckArrives(Reply(net.receiver)), net2)
    ensures Stage(net2, x, y, sent + 1) && net2.receiver == net.receiver && net2.sender.isn == net.sender.isn
  {
    var a, s := Reply(net.receiver), net.sender;
    BufferWindow(net.receiver, s.isn, full);
    net1 := net.(acks := net.acks + {a});
    net2 := net1.(sender := AckReceived(s, a.ackno, a.window));
    StepKeeps(net, ReceiverReplies, net1);
    StepKeeps(net1, AckArrives(a), net2);
    AckSendsOne(s, a.window);
    NextIs(s, x, y, sent);
  }

  lemma NextIs(s: Sender, x: u8, y: u8, sent: nat)
    requires s.stream.History() == [x, y] && s.stream.BytesRead() == sent <= 1 && s.stream.ended
    requires s.next == sent + 1
    ensures s.stream.buffer != [] && NextByte(s) == LastSent(s.isn, if sent == 0 then x else y, sent + 1)
  {
    assert s.stream.buffer == s.stream.History()[sent..];
  }

  /**
   The run: the sender wrote two bytes, the receiver has room for one. After the
   last acknowledgment of the run, the segment with the second byte and FIN may
   arrive, and the output ends without that byte.
   */
  lemma FinIntoFullWindowLosesByte(x: u8, y: u8, sendCapacity: nat, timeout: u16, isn: u32, recvCapacity: nat)
    returns (states: seq<Net>, events: seq<Event>, n: Numbered)
    requires sendCapacity >= 2 && recvCapacity == 1
    ensures IsRun(states, events, sendCapacity, timeout, isn, recvCapacity)
    ensures var net := states[|events|];
            && net.sender.stream.ended && net.sender.stream.History() == [x, y]
            && n in net.sender.log && Unambiguous(net, SegmentArrives(n)) && Deliverable(net.receiver, n.seg)
            && SegmentReceived(net.receiver, n.seg).Output().ended
            && |SegmentReceived(net.receiver, n.seg).Output().History()| == 1
  {
    states, events := Opening(x, y, sendCapacity, timeout, isn, recvCapacity);
    var net := states[|events|];
    SynOpens(net.receiver, net.sender.log[0].seg, isn, recvCapacity);
    var next := SegmentStep(net, net.sender.log[0], x, y, 0);
    states, events := RunSnoc(states, events, SegmentArrives(net.sender.log[0]), next,
                              sendCapacity, timeout, isn, recvCapacity);
    states, events := Acknowledged(states, events, x, y, 0, false, sendCapacity, timeout, isn, recvCapacity);
    net := states[|events|];
    FirstByteFills(net.receiver, net.sender.log[1].seg, isn);
    next := SegmentStep(net, net.sender.log[1], x, y, 1);
    states, events := RunSnoc(states, events, SegmentArrives(net.sender.log[1]), next,
                              sendCapacity, timeout, isn, recvCapacity);
    states, events := Acknowledged(states, events, x, y, 1, true, sendCapacity, timeout, isn, recvCapacity);
    net := states[|events|];
    n := net.sender.log[2];
    LastByteIsLost(net.receiver, n.seg, isn);
  }

  lemma Acknowledged(
    states: seq<Net>, events: seq<Event>, x: u8, y: u8, sent: nat, full: bool,
    sendCapacity: nat, timeout: u16, isn: u32, recvCapacity: nat)
    returns (states': seq<Net>, events': seq<Event>)
    requires IsRun(states, events, sendCapacity, timeout, isn, recvCapacity)
    requires Stage(states[|events|], x, y, sent) && sent <= 1 && full == (sent == 1)
    requires Buffer(states[|events|].receiver, isn, full) && states[|events|].sender.isn == isn
    ensures IsRun(states', events', sendCapacity, timeout, isn, recvCapacity)
    ensures Stage(states'[|events'|], x, y, sent + 1) && Buffer(states'[|events'|].receiver, isn, full)
    ensures states'[|events'|].sender.isn == isn
  {
    var net := states[|events|];
    var net1, net2 := AckStep(net, x, y, sent, full);
    states', events' := RunSnoc(states, events, ReceiverReplies, net1, sendCapacity, timeout, isn, recvCapacity);
    states', events' := RunSnoc(states', events', AckArrives(Reply(net.receiver)), net2,
                                sendCapacity, timeout, isn, recvCapacity);
  }

  /**
   The condition on FINs is needed: with one more step that run ends the output
   although the last byte is missing.
   */
  lemma OutputEndsShort(x: u8, y: u8, sendCapacity: nat, timeout: u16, isn: u32, recvCapacity: nat)
    returns (states: seq<Net>, events: seq<Event>)
    requires sendCapacity >= 2 && recvCapacity == 1
    ensures EF.IsRun(states, events, sendCapacity, timeout, isn, recvCapacity)
    ensures var net := states[|events|];
            && net.receiver.Output().ended && |net.receiver.Output().History()| == 1
            && net.sender.stream.History() == [x, y]
  {
    var n;
    states, events, n := FinIntoFullWindowLosesByte(x, y, sendCapacity, timeout, isn, recvCapacity);
    var net := states[|events|];
    RunKeeps(states, events, sendCapacity, timeout, isn, recvCapacity, |events|);
    var net' := net.(receiver := SegmentReceived(net.receiver, n.seg));
    states, events := EF.RunSnoc(states, events, SegmentArrives(n), net', sendCapacity, timeout, isn, recvCapacity);
  }
}
