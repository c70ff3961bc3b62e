/** Two connections over a network that loses, duplicates and reorders. */
module Peers {
  import opened Numbers
  import opened TcpSegments
  import Reassembly
  import RR = ReassemblyRefinement
  import S = Senders
  import SL = SenderLedger
  import R = Receivers
  import RW = ReceiverWindow
  import N = Network
  import EF = EarlyFins
  import opened Connections
  import CR = ConnectionRuns

  /** A connection and, for each segment it forwarded, the absolute number of the acknowledgment it carries. */
  datatype End = End(c: Connection, acked: seq<nat>)

  datatype Pair = Pair(a: End, b: End)

  predicate Numbered(e: End) {
    |e.acked| == |e.c.segmentsOut|
  }

  /** The acknowledgments on the wire. */
  function Acks(e: End): set<N.Ack>
    requires Numbered(e)
  {
    set i | 0 <= i < |e.acked| && e.c.segmentsOut[i].header.ack :: AckOf(e, i)
  }

  function AckOf(e: End, i: nat): N.Ack
    requires Numbered(e) && i < |e.acked|
  {
    N.Ack(e.acked[i], e.c.segmentsOut[i].header.ackno, e.c.segmentsOut[i].header.win)
  }

  /** The direction from the sender of `x` to the receiver of `y`. */
  function Toward(x: End, y: End): N.Net
    requires Numbered(y)
  {
    N.Net(x.c.sender, y.c.receiver, Acks(y))
  }

  // ---------- steps ----------

  /** A call of the owner, or the arrival of the `i`th segment the other side ever forwarded. */
  datatype Event = Own(call: CR.Call) | Heard(i: nat)

  /** What may happen at `x`. */
  predicate Possible(x: End, y: End, e: Event) {
    && Bounded(x.c) && x.c.sender.stream.Bounded()
    && match e
       case Own(call) => !call.SegmentCall? && (call.WriteCall? ==> !x.c.sender.stream.ended)
       case Heard(i) => i < |y.c.segmentsOut| == |y.c.sender.log| == |y.acked|
  }

  /** A first FIN that arrives has or finds the last byte. */
  predicate Ready(x: End, y: End, e: Event)
    requires Possible(x, y, e)
  {
    e.Heard? ==> N.FinReady(x.c.receiver, y.c.sender.log[e.i])
  }

  /** Less than 2^31 is in flight, and no number that arrives is ambiguous. */
  predicate Unambiguous(x: End, y: End, e: Event)
    requires Possible(x, y, e)
  {
    && SL.Small(x.c.sender)
    && match e
       case Own(_) => true
       case Heard(i) =>
         && SL.Small(y.c.sender)
         && (x.c.receiver.synReceived ==> N.Near(y.c.sender.log[i].at, x.c.receiver.checkpoint))
         && (y.c.segmentsOut[i].header.ack ==> N.Near(y.acked[i], x.c.sender.next))
  }

  function CallOf(x: End, y: End, e: Event): CR.Call
    requires Possible(x, y, e)
  {
    match e
    case Own(call) => call
    case Heard(i) => CR.SegmentCall(y.c.segmentsOut[i])
  }

  /** Everything new that `x` forwards carries the acknowledgment number its receiver then has. */
  function Extended(x: End, c': Connection): End {
    End(c', x.acked + seq(Max(|c'.segmentsOut| - |x.c.segmentsOut|, 0), _ => R.AbsAckno(c'.receiver)))
  }

  ghost predicate Step(x: End, y: End, e: Event, x': End) {
    && Possible(x, y, e) && CR.LegalCall(x.c, CallOf(x, y, e))
    && x' == Extended(x, CR.Apply(x.c, CallOf(x, y, e)))
  }

  /** The invariant of one direction, in runs whose FINs are ready or in all runs. */
  ghost predicate Holds(net: N.Net, ready: bool) {
    if ready then N.Inv(net) else EF.Inv(net)
  }

  ghost predicate Inv(p: Pair, ready: bool) {
    && CR.Inv(p.a.c) && CR.Inv(p.b.c) && Numbered(p.a) && Numbered(p.b)
    && Holds(Toward(p.a, p.b), ready) && Holds(Toward(p.b, p.a), ready)
  }

  // ---------- the sender of a connection ----------

  /** The sender may have sent more, but has heard nothing. */
  predicate Quiet(s: S.Sender, s': S.Sender) {
    && s'.isn == s.isn && s'.recvAckno == s.recvAckno && s.next <= s'.next
    && s.stream.History() <= s'.stream.History()
    && (s.stream.ended ==> s'.stream.ended && s'.stream.History() == s.stream.History())
  }

  lemma QuietGrows(s: S.Sender, s': S.Sender)
    requires Quiet(s, s')
    ensures SL.Grows(SL.SourceOf(s), SL.SourceOf(s'))
  {
  }

  lemma FillQuiet(s: S.Sender)
    requires SL.Inv(s)
    ensures SL.Inv(S.FillWindow(s)) && Quiet(s, S.FillWindow(s))
  {
    SL.FillKeeps(s);
    SL.FillWindowFrame(s);
  }

  lemma TransmitQuiet(c: Connection)
    requires Bounded(c) && SL.Inv(c.sender)
    ensures Quiet(c.sender, Transmit(c).sender)
  {
    FillQuiet(c.sender);
  }

  lemma ForwardQuiet(c: Connection, rst: bool)
    requires Bounded(c) && c.sender.segmentsOut != []
    ensures Quiet(c.sender, ForwardFront(c, rst).sender)
  {
  }

  lemma AbortQuiet(c: Connection)
    ensures Quiet(c.sender, Abort(c).sender)
  {
  }

  lemma EmptyQuiet(s: S.Sender)
    ensures Quiet(s, S.SendEmpty(s)) && S.SendEmpty(s).segmentsOut != []
  {
  }

  lemma SendAckQuiet(c: Connection)
    requires Bounded(c)
    ensures Quiet(c.sender, SendAck(c).sender)
  {
    EmptyQuiet(c.sender);
    ForwardQuiet(c.(sender := S.SendEmpty(c.sender)), false);
  }

  lemma RespondQuiet(c: Connection)
    requires Bounded(c) && SL.Inv(c.sender)
    ensures Quiet(c.sender, Respond(c).sender)
  {
    FillQuiet(c.sender);
    SendAckQuiet(c.(sender := S.FillWindow(c.sender)));
  }

  lemma ResetQuiet(c: Connection, ack: bool)
    requires Bounded(c)
    ensures Quiet(c.sender, ResetReceived(c, ack).sender)
  {
    var dropped := DropQueue(c);
    AbortQuiet(dropped);
    EmptyQuiet(dropped.sender);
    var emptied := dropped.(sender := S.SendEmpty(dropped.sender));
    ForwardQuiet(emptied, true);
    AbortQuiet(ForwardFront(emptied, true));
  }

  lemma RetransmitQuiet(c: Connection)
    requires Bounded(c)
    ensures Quiet(c.sender, Retransmit(c).sender)
  {
    if c.sender.segmentsOut != [] {
      ForwardQuiet(c, GivesUp(c));
      AbortQuiet(ForwardFront(c, true));
    }
  }

  lemma TickQuiet(c: Connection, ms: nat)
    requires Bounded(c)
    ensures Quiet(c.sender, Tick(c, ms).sender)
  {
    assert Quiet(c.sender, S.Tick(c.sender, ms));
    RetransmitQuiet(Elapse(c, ms));
  }

  lemma QuietTrans(s: S.Sender, s1: S.Sender, s2: S.Sender)
    requires Quiet(s, s1) && Quiet(s1, s2)
    ensures Quiet(s, s2)
  {
  }

  /** The owner's calls. */
  lemma OwnQuiet(c: Connection, call: CR.Call)
    requires CR.Inv(c) && CR.LegalCall(c, call) && !call.SegmentCall?
    ensures Quiet(c.sender, CR.Apply(c, call).sender)
  {
    match call
    case ConnectCall => TransmitQuiet(c);
    case WriteCall(data) =>
      SL.WriteKeeps(c.sender, data);
      TransmitQuiet(c.(sender := S.Write(c.sender, data)));
    case EndCall =>
      SL.EndInputKeeps(c.sender);
      TransmitQuiet(c.(sender := S.EndInput(c.sender)));
    case ReadCall(_) =>
    case TickCall(ms) => TickQuiet(c, ms);
  }

  /** The sender after the acknowledgment of a segment. */
  function Informed(s: S.Sender, seg: Segment): S.Sender {
    if seg.header.ack then S.AckReceived(s, seg.header.ackno, seg.header.win) else s
  }

  lemma AckQuiet(c: Connection, seg: Segment)
    requires Bounded(c) && SL.Inv(c.sender) && SL.Small(c.sender) && seg.header.ack
    ensures Quiet(c.sender, AckReceived(c, seg).sender)
         || Quiet(S.AckReceived(c.sender, seg.header.ackno, seg.header.win), AckReceived(c, seg).sender)
  {
    if S.AckAcceptable(c.sender, seg.header.ackno) {
      SL.AckKeeps(c.sender, seg.header.ackno, seg.header.win);
      TransmitQuiet(c.(sender := S.AckReceived(c.sender, seg.header.ackno, seg.header.win)));
    } else {
      SendAckQuiet(c);
    }
  }

  /** An arriving segment informs the sender or not, and then the sender may send. */
  lemma ProceedQuiet(c: Connection, seg: Segment)
    requires CR.Inv(c) && SL.Small(c.sender)
    ensures Quiet(c.sender, Proceed(c, seg).sender) || Quiet(Informed(c.sender, seg), Proceed(c, seg).sender)
  {
    if !Unanswered(c, seg) {
      var c1 := if seg.header.ack then AckReceived(c, seg) else c;
      if seg.header.ack {
        AckQuiet(c, seg);
        CR.AckReceivedKeeps(c, seg);
      }
      if seg.Length() > 0 {
        RespondQuiet(c1);
        if Quiet(c.sender, c1.sender) {
          QuietTrans(c.sender, c1.sender, Proceed(c, seg).sender);
        } else {
          QuietTrans(Informed(c.sender, seg), c1.sender, Proceed(c, seg).sender);
        }
      }
    }
  }

  lemma HeardQuiet(c: Connection, seg: Segment)
    requires CR.Inv(c) && SL.Small(c.sender) && R.Deliverable(c.receiver, seg)
    ensures var s' := SegmentReceived(c, seg).sender;
            Quiet(c.sender, s') || Quiet(Informed(c.sender, seg), s')
  {
    CR.HearKeeps(c, seg);
    if seg.header.rst {
      ResetQuiet(Hear(c, seg), seg.header.ack);
    } else {
      ProceedQuiet(UpdateLinger(Hear(c, seg)), seg);
    }
  }

  // ---------- the receiver of a connection ----------

  /** The receiver, but for the error of its output. */
  predicate SameReceiver(r: R.Receiver, r': R.Receiver) {
    r' == r.(reassembler := r.reassembler.(output := r.reassembler.output.(error := r'.reassembler.output.error)))
  }

  lemma OwnReceiver(c: Connection, call: CR.Call)
    requires CR.Inv(c) && CR.LegalCall(c, call) && !call.SegmentCall?
    ensures SameReceiver(if call.ReadCall? then R.ReadOutput(c.receiver, call.count) else c.receiver,
                         CR.Apply(c, call).receiver)
  {
    if call.TickCall? {
      RetransmitReceiver(Elapse(c, call.ms));
    }
  }

  lemma RetransmitReceiver(c: Connection)
    requires Bounded(c)
    ensures SameReceiver(c.receiver, Retransmit(c).receiver)
  {
  }

  lemma HeardReceiver(c: Connection, seg: Segment)
    requires CR.Inv(c) && SL.Small(c.sender) && R.Deliverable(c.receiver, seg)
    ensures SameReceiver(R.SegmentReceived(c.receiver, seg), SegmentReceived(c, seg).receiver)
  {
    CR.HearKeeps(c, seg);
    if !seg.header.rst {
      CR.ProceedKeeps(UpdateLinger(Hear(c, seg)), seg);
    } else {
      ResetReceiver(Hear(c, seg), seg.header.ack);
    }
  }

  lemma ResetReceiver(c: Connection, ack: bool)
    requires Bounded(c)
    ensures SameReceiver(c.receiver, ResetReceived(c, ack).receiver)
  {
  }

  /** What the receiver looks at: the number, the flags SYN and FIN, and the bytes. */
  predicate SameToReceiver(seg: Segment, seg': Segment) {
    && seg'.header.seqno == seg.header.seqno && seg'.header.syn == seg.header.syn && seg'.header.fin == seg.header.fin
    && seg'.payload == seg.payload
  }

  lemma SameWindowTest(r: R.Receiver, seg: Segment, seg': Segment)
    requires SameToReceiver(seg, seg') && r.reassembler.output.Bounded()
    ensures R.Inbound(r, seg') == R.Inbound(r, seg) && R.PayloadIndex(r, seg') == R.PayloadIndex(r, seg)
    ensures R.Ignores(r, seg') == R.Ignores(r, seg) && R.Open(r, seg') == R.Open(r, seg)
  {
  }

  lemma SamePush(r: R.Receiver, seg: Segment, seg': Segment)
    requires SameToReceiver(seg, seg') && r.reassembler.output.Bounded()
    requires R.Inbound(r, seg) ==> Reassembly.Pushable(r.reassembler, seg.payload, R.PayloadIndex(r, seg))
    ensures R.Inbound(r, seg') ==> Reassembly.Pushable(r.reassembler, seg'.payload, R.PayloadIndex(r, seg'))
    ensures R.PushPayload(r, seg') == R.PushPayload(r, seg)
  {
    SameWindowTest(r, seg, seg');
  }

  /** Forwarding leaves all of that alone. */
  lemma SameArrival(r: R.Receiver, seg: Segment, seg': Segment)
    requires CR.Copy(seg', seg) || CR.Copy(seg, seg')
    ensures R.Deliverable(r, seg) ==>
              R.Deliverable(r, seg') && R.SegmentReceived(r, seg') == R.SegmentReceived(r, seg)
  {
    if R.Deliverable(r, seg) {
      SameWindowTest(r, seg, seg');
      SameWindowTest(R.Open(r, seg), seg, seg');
      if !R.Ignores(r, seg) {
        SamePush(R.Open(r, seg), seg, seg');
        SameFin(R.PushPayload(R.Open(r, seg), seg), seg, seg');
      }
    }
  }

  lemma SameFin(r: R.Receiver, seg: Segment, seg': Segment)
    requires SameToReceiver(seg, seg')
    ensures R.NoteFin(r, seg') == R.NoteFin(r, seg)
  {
  }

  lemma ErrorIrrelevant(net: N.Net, r': R.Receiver, ready: bool)
    requires Holds(net, ready) && SameReceiver(net.receiver, r')
    ensures Holds(net.(receiver := r'), ready)
  {
    var src, next := SL.SourceOf(net.sender), net.sender.next;
    if ready {
      StillTracks(net.receiver, r', src, next);
    } else {
      StillSound(net.receiver, r', src, next);
    }
  }

  lemma SameReassembler(r: R.Receiver, r': R.Receiver, stream: bytes)
    requires SameReceiver(r, r') && RW.Inv(r)
    ensures RW.Inv(r') && R.AbsAckno(r') == R.AbsAckno(r)
    ensures RR.Agrees(r.reassembler, stream) ==> RR.Agrees(r'.reassembler, stream)
    ensures forall i :: RR.Accepted(r'.reassembler, i) <==> RR.Accepted(r.reassembler, i)
  {
    assert r'.reassembler.output.History() == r.reassembler.output.History();
    assert RR.Inv(r'.reassembler);
  }

  lemma StillTracks(r: R.Receiver, r': R.Receiver, src: SL.Source, next: nat)
    requires SameReceiver(r, r') && N.Tracks(r, src, next)
    ensures N.Tracks(r', src, next) && R.AbsAckno(r') == R.AbsAckno(r)
  {
    SameReassembler(r, r', src.history);
  }

  lemma StillSound(r: R.Receiver, r': R.Receiver, src: SL.Source, next: nat)
    requires SameReceiver(r, r') && EF.Sound(r, src, next)
    ensures EF.Sound(r', src, next)
  {
    SameReassembler(r, r', src.history);
  }

  // ---------- one step ----------

  /** Toward the other side: the sender has moved. */
  lemma OutwardKeeps(x: End, y: End, s: S.Sender, s': S.Sender, ready: bool)
    requires Numbered(y) && Holds(Toward(x, y).(sender := s), ready) && SL.Inv(s') && Quiet(s, s')
    ensures Holds(Toward(x, y).(sender := s'), ready)
  {
    QuietGrows(s, s');
    if ready {
      N.SenderMoves(Toward(x, y).(sender := s), s');
    } else {
      EF.SenderMoves(Toward(x, y).(sender := s), s');
    }
  }

  /** Back from the other side: the receiver has moved, and what is forwarded carries its state. */
  lemma InwardKeeps(x: End, y: End, r: R.Receiver, x': End, ready: bool)
    requires Numbered(x) && Holds(Toward(y, x).(receiver := r), ready) && SameReceiver(r, x'.c.receiver)
    requires CR.Queues(x.c, x'.c) && x' == Extended(x, x'.c)
    ensures Numbered(x') && Holds(Toward(y, x'), ready)
  {
    var net := Toward(y, x).(receiver := x'.c.receiver);
    ErrorIrrelevant(Toward(y, x).(receiver := r), x'.c.receiver, ready);
    forall a | a in Acks(x') && a !in Acks(x) ensures Current(x'.c.receiver, a) {
      var i :| 0 <= i < |x'.acked| && x'.c.segmentsOut[i].header.ack && a == AckOf(x', i);
      NewAck(x, x', i);
    }
    if ready {
      N.RepliesKeep(net, Acks(x'));
    } else {
      EF.RepliesKeep(net, Acks(x'));
    }
  }

  /** An acknowledgment of what the receiver has got now. */
  predicate Current(r: R.Receiver, a: N.Ack) {
    r.synReceived && a.abs == R.AbsAckno(r) && a.ackno == r.ackno
  }

  lemma NewAck(x: End, x': End, i: nat)
    requires Numbered(x) && CR.Queues(x.c, x'.c) && x' == Extended(x, x'.c)
    requires i < |x'.acked| && x'.c.segmentsOut[i].header.ack
    ensures AckOf(x', i) in Acks(x) || Current(x'.c.receiver, AckOf(x', i))
  {
    if i < |x.acked| {
      assert x'.c.segmentsOut[i] == x.c.segmentsOut[i];
      assert AckOf(x', i) == AckOf(x, i) && AckOf(x, i) in Acks(x);
    } else {
      assert CR.StampedBy(x'.c.receiver, x'.c.segmentsOut[i]);
    }
  }

  lemma ReadKeeps(net: N.Net, count: nat, ready: bool)
    requires Holds(net, ready)
    ensures Holds(net.(receiver := R.ReadOutput(net.receiver, count)), ready)
  {
    if ready {
      N.ReadKeeps(net, count);
    } else {
      EF.ReadKeeps(net, count);
    }
  }

  lemma OwnKeeps(x: End, y: End, call: CR.Call, x': End, ready: bool)
    requires Inv(Pair(x, y), ready) && Step(x, y, Own(call), x')
    ensures Inv(Pair(x', y), ready)
  {
    CR.CallKeeps(x.c, call);
    OwnQuiet(x.c, call);
    OutwardKeeps(x, y, x.c.sender, x'.c.sender, ready);
    OwnReceiver(x.c, call);
    if call.ReadCall? {
      ReadKeeps(Toward(y, x), call.count, ready);
      InwardKeeps(x, y, R.ReadOutput(x.c.receiver, call.count), x', ready);
    } else {
      InwardKeeps(x, y, x.c.receiver, x', ready);
    }
  }

  /** Where FINs are ready, every segment ever forwarded may arrive. */
  lemma HeardIsLegal(x: End, y: End, i: nat)
    requires Inv(Pair(x, y), true) && Possible(x, y, Heard(i)) && Unambiguous(x, y, Heard(i)) && Ready(x, y, Heard(i))
    ensures R.Deliverable(x.c.receiver, y.c.segmentsOut[i])
  {
    var n, seg := y.c.sender.log[i], y.c.segmentsOut[i];
    assert CR.Copy(seg, n.seg);
    SameArrival(x.c.receiver, n.seg, seg);
    N.ArrivalKeeps(Toward(y, x), n);
  }

  lemma HeardArrives(x: End, y: End, i: nat, ready: bool)
    requires Inv(Pair(x, y), ready) && Possible(x, y, Heard(i)) && Unambiguous(x, y, Heard(i))
    requires (ready ==> Ready(x, y, Heard(i))) && R.Deliverable(x.c.receiver, y.c.segmentsOut[i])
    ensures Holds(Toward(y, x).(receiver := R.SegmentReceived(x.c.receiver, y.c.segmentsOut[i])), ready)
  {
    var n, seg := y.c.sender.log[i], y.c.segmentsOut[i];
    assert CR.Copy(seg, n.seg);
    SameArrival(x.c.receiver, seg, n.seg);
    if ready {
      N.ArrivalKeeps(Toward(y, x), n);
    } else {
      EF.ArrivalKeeps(Toward(y, x), n);
    }
  }

  lemma InformedKeeps(x: End, y: End, i: nat, ready: bool)
    requires Inv(Pair(x, y), ready) && Possible(x, y, Heard(i)) && Unambiguous(x, y, Heard(i))
    ensures Holds(Toward(x, y).(sender := Informed(x.c.sender, y.c.segmentsOut[i])), ready)
  {
    if y.c.segmentsOut[i].header.ack {
      assert AckOf(y, i) in Acks(y);
      if ready {
        N.AckKeeps(Toward(x, y), AckOf(y, i));
      } else {
        EF.AckKeeps(Toward(x, y), AckOf(y, i));
      }
    }
  }

  lemma HeardOutward(x: End, y: End, i: nat, s': S.Sender, ready: bool)
    requires Inv(Pair(x, y), ready) && Possible(x, y, Heard(i)) && Unambiguous(x, y, Heard(i)) && SL.Inv(s')
    requires Quiet(x.c.sender, s') || Quiet(Informed(x.c.sender, y.c.segmentsOut[i]), s')
    ensures Holds(Toward(x, y).(sender := s'), ready)
  {
    if Quiet(x.c.sender, s') {
      OutwardKeeps(x, y, x.c.sender, s', ready);
    } else {
      InformedKeeps(x, y, i, ready);
      OutwardKeeps(x, y, Informed(x.c.sender, y.c.segmentsOut[i]), s', ready);
    }
  }

  lemma HeardInward(x: End, y: End, i: nat, x': End, ready: bool)
    requires Inv(Pair(x, y), ready) && Possible(x, y, Heard(i)) && Unambiguous(x, y, Heard(i))
    requires (ready ==> Ready(x, y, Heard(i))) && R.Deliverable(x.c.receiver, y.c.segmentsOut[i])
    requires SameReceiver(R.SegmentReceived(x.c.receiver, y.c.segmentsOut[i]), x'.c.receiver)
    requires CR.Queues(x.c, x'.c) && x' == Extended(x, x'.c)
    ensures Numbered(x') && Holds(Toward(y, x'), ready)
  {
    HeardArrives(x, y, i, ready);
    InwardKeeps(x, y, R.SegmentReceived(x.c.receiver, y.c.segmentsOut[i]), x', ready);
  }

  lemma HeardKeeps(x: End, y: End, i: nat, x': End, ready: bool)
    requires Inv(Pair(x, y), ready) && Step(x, y, Heard(i), x') && Unambiguous(x, y, Heard(i))
    requires ready ==> Ready(x, y, Heard(i))
    ensures Inv(Pair(x', y), ready)
  {
    HeardConnection(x.c, y.c.segmentsOut[i], x'.c);
    HeardInward(x, y, i, x', ready);
    HeardOutward(x, y, i, x'.c.sender, ready);
  }

  /** What an arriving segment does to a connection by itself. */
  lemma HeardConnection(c: Connection, seg: Segment, c': Connection)
    requires CR.Inv(c) && SL.Small(c.sender) && R.Deliverable(c.receiver, seg) && c' == SegmentReceived(c, seg)
    ensures CR.Inv(c') && CR.Queues(c, c') && SameReceiver(R.SegmentReceived(c.receiver, seg), c'.receiver)
    ensures Quiet(c.sender, c'.sender) || Quiet(Informed(c.sender, seg), c'.sender)
  {
    CR.SegmentKeeps(c, seg);
    HeardReceiver(c, seg);
    HeardQuiet(c, seg);
  }

  lemma StepKeeps(x: End, y: End, e: Event, x': End, ready: bool)
    requires Inv(Pair(x, y), ready) && Step(x, y, e, x') && Unambiguous(x, y, e) && (ready ==> Ready(x, y, e))
    ensures Inv(Pair(x', y), ready) && Inv(Pair(y, x'), ready)
  {
    match e
    case Own(call) => OwnKeeps(x, y, call, x', ready);
    case Heard(i) => HeardKeeps(x, y, i, x', ready);
  }

  // ---------- whole runs ----------

  datatype Config = Config(sendCapacity: nat, recvCapacity: nat, rtTimeout: u16, isn: u32)

  function NewEnd(k: Config): End {
    End(NewConnection(k.sendCapacity, k.recvCapacity, k.rtTimeout, k.isn), [])
  }

  /** One side moves: the first one, or the second. */
  ghost predicate Next(p: Pair, first: bool, e: Event, p': Pair, ready: bool) {
    if first then Moves(p.a, p.b, e, p'.a, ready) && Unambiguous(p.a, p.b, e) && p'.b == p.b
    else Moves(p.b, p.a, e, p'.b, ready) && Unambiguous(p.b, p.a, e) && p'.a == p.a
  }

  ghost predicate Moves(x: End, y: End, e: Event, x': End, ready: bool) {
    Step(x, y, e, x') && (ready ==> Ready(x, y, e))
  }

  ghost predicate IsRun(
    states: seq<Pair>, sides: seq<bool>, events: seq<Event>, a: Config, b: Config, ready: bool)
  {
    && |states| == |events| + 1 && |sides| == |events| && states[0] == Pair(NewEnd(a), NewEnd(b))
    && forall i :: 0 <= i < |events| ==> Next(states[i], sides[i], events[i], states[i + 1], ready)
  }

  lemma NextKeeps(p: Pair, first: bool, e: Event, p': Pair, ready: bool)
    requires Inv(p, ready) && Next(p, first, e, p', ready)
    ensures Inv(p', ready)
  {
    if first {
      StepKeeps(p.a, p.b, e, p'.a, ready);
    } else {
      StepKeeps(p.b, p.a, e, p'.b, ready);
    }
  }

  /** Closed without an error. */
  predicate Closed(e: End) {
    !e.c.active && !CR.Errors(e.c)
  }

  /** Each side has written to its output exactly what the other side's application wrote. */
  predicate Complete(p: Pair) {
    && p.a.c.receiver.Output().History() == p.b.c.sender.stream.History()
    && p.b.c.receiver.Output().History() == p.a.c.sender.stream.History()
  }

  /** What holds in all runs, and what holds besides in runs whose FINs are ready. */
  ghost predicate Safe(p: Pair, ready: bool) {
    && p.a.c.receiver.Output().History() <= p.b.c.sender.stream.History()
    && p.b.c.receiver.Output().History() <= p.a.c.sender.stream.History()
    && (ready && (Closed(p.a) || Closed(p.b)) ==> Complete(p))
  }

  lemma InvIsSafe(p: Pair, ready: bool)
    requires Inv(p, ready)
    ensures Safe(p, ready)
  {
    PrefixSafe(p.a, p.b, ready);
    PrefixSafe(p.b, p.a, ready);
    if ready && Closed(p.a) {
      ClosedIsComplete(p.a, p.b);
    } else if ready && Closed(p.b) {
      ClosedIsComplete(p.b, p.a);
    }
  }

  lemma PrefixSafe(x: End, y: End, ready: bool)
    requires Numbered(y) && Holds(Toward(x, y), ready)
    ensures y.c.receiver.Output().History() <= x.c.sender.stream.History()
    ensures ready ==> N.Safe(Toward(x, y))
  {
    if ready {
      N.InvIsSafe(Toward(x, y));
    } else {
      EF.InvIsSafe(Toward(x, y));
    }
  }

  /** One clean close is enough: nothing is missing in either direction. */
  lemma ClosedIsComplete(x: End, y: End)
    requires CR.Inv(x.c) && Numbered(x) && Numbered(y) && Closed(x)
          && N.Safe(Toward(x, y)) && N.Safe(Toward(y, x))
    ensures x.c.receiver.Output().History() == y.c.sender.stream.History()
    ensures y.c.receiver.Output().History() == x.c.sender.stream.History()
  {
    assert CR.Finished(x.c);
  }

  lemma NewPairInv(a: Config, b: Config, ready: bool)
    ensures Inv(Pair(NewEnd(a), NewEnd(b)), ready)
  {
    CR.NewConnectionInv(a.sendCapacity, a.recvCapacity, a.rtTimeout, a.isn);
    CR.NewConnectionInv(b.sendCapacity, b.recvCapacity, b.rtTimeout, b.isn);
    NewDirection(a, b, ready);
    NewDirection(b, a, ready);
  }

  lemma NewDirection(a: Config, b: Config, ready: bool)
    ensures Holds(Toward(NewEnd(a), NewEnd(b)), ready)
  {
    assert Toward(NewEnd(a), NewEnd(b)) == N.NewNet(a.sendCapacity, a.rtTimeout, a.isn, b.recvCapacity);
    if ready {
      N.NewNetInv(a.sendCapacity, a.rtTimeout, a.isn, b.recvCapacity);
    } else {
      EF.NewNetInv(a.sendCapacity, a.rtTimeout, a.isn, b.recvCapacity);
    }
  }

  lemma {:induction false} RunKeeps(
    states: seq<Pair>, sides: seq<bool>, events: seq<Event>, a: Config, b: Config, ready: bool, k: nat)
    requires IsRun(states, sides, events, a, b, ready) && k < |states|
    ensures Inv(states[k], ready)
    decreases k
  {
    if k == 0 {
      NewPairInv(a, b, ready);
    } else {
      RunKeeps(states, sides, events, a, b, ready, k - 1);
      NextKeeps(states[k - 1], sides[k - 1], events[k - 1], states[k], ready);
    }
  }

  /**
   In every state of every run each output is a prefix of what the other
   application wrote. In runs whose FINs are ready, once either connection has
   closed without an error nothing is missing in either direction.
   */
  lemma RunIsSafe(states: seq<Pair>, sides: seq<bool>, events: seq<Event>, a: Config, b: Config, ready: bool, k: nat)
    requires IsRun(states, sides, events, a, b, ready) && k < |states|
    ensures Inv(states[k], ready) && Safe(states[k], ready)
  {
    RunKeeps(states, sides, events, a, b, ready, k);
    InvIsSafe(states[k], ready);
  }

  // ---------- short streams ----------

  predicate Short(p: Pair)
    requires Numbered(p.a) && Numbered(p.b)
  {
    N.Short(Toward(p.a, p.b)) && N.Short(Toward(p.b, p.a))
  }

  lemma ShortSegment(net: N.Net, n: S.Numbered, ready: bool)
    requires Holds(net, ready) && N.Short(net) && N.Wired(net, N.SegmentArrives(n))
    ensures N.Unambiguous(net, N.SegmentArrives(n))
  {
    if ready {
      N.ShortSegmentIsNear(net, n);
    } else {
      EF.ShortIsNear(net, N.SegmentArrives(n));
    }
  }

  lemma ShortAck(net: N.Net, a: N.Ack, ready: bool)
    requires Holds(net, ready) && N.Short(net) && a in net.acks
    ensures N.Unambiguous(net, N.AckArrives(a))
  {
    if ready {
      N.ShortAckIsNear(net, a);
    } else {
      EF.ShortAckIsNear(net, a);
    }
  }

  lemma ShortSmall(net: N.Net, ready: bool)
    requires Holds(net, ready) && N.Short(net)
    ensures SL.Small(net.sender)
  {
    if ready {
      N.ShortIsSmall(net);
    } else {
      EF.ShortIsSmall(net);
    }
  }

  /** For streams under 2^31 nothing that may happen is ambiguous. */
  lemma ShortIsUnambiguous(x: End, y: End, e: Event, ready: bool)
    requires Inv(Pair(x, y), ready) && Short(Pair(x, y)) && Possible(x, y, e)
    ensures Unambiguous(x, y, e)
  {
    ShortSmall(Toward(x, y), ready);
    ShortSmall(Toward(y, x), ready);
    if e.Heard? {
      ShortSegment(Toward(y, x), y.c.sender.log[e.i], ready);
      if y.c.segmentsOut[e.i].header.ack {
        assert AckOf(y, e.i) in Acks(y);
        ShortAck(Toward(x, y), AckOf(y, e.i), ready);
      }
    }
  }

  /** Where FINs are ready too, every connection may take whatever may happen. */
  lemma ShortIsLegal(x: End, y: End, e: Event)
    requires Inv(Pair(x, y), true) && Short(Pair(x, y)) && Possible(x, y, e) && Ready(x, y, e)
    ensures CR.LegalCall(x.c, CallOf(x, y, e))
  {
    ShortIsUnambiguous(x, y, e, true);
    if e.Heard? {
      HeardIsLegal(x, y, e.i);
    }
  }

  /** One side moves, whatever the numbers. */
  ghost predicate ShortNext(p: Pair, first: bool, e: Event, p': Pair, ready: bool) {
    && Numbered(p.a) && Numbered(p.b) && Short(p)
    && if first then Moves(p.a, p.b, e, p'.a, ready) && p'.b == p.b
       else Moves(p.b, p.a, e, p'.b, ready) && p'.a == p.a
  }

  lemma ShortNextKeeps(p: Pair, first: bool, e: Event, p': Pair, ready: bool)
    requires Inv(p, ready) && ShortNext(p, first, e, p', ready)
    ensures Inv(p', ready)
  {
    if first {
      ShortIsUnambiguous(p.a, p.b, e, ready);
      StepKeeps(p.a, p.b, e, p'.a, ready);
    } else {
      ShortIsUnambiguous(p.b, p.a, e, ready);
      StepKeeps(p.b, p.a, e, p'.b, ready);
    }
  }

  ghost predicate IsShortRun(
    states: seq<Pair>, sides: seq<bool>, events: seq<Event>, a: Config, b: Config, ready: bool)
  {
    && |states| == |events| + 1 && |sides| == |events| && states[0] == Pair(NewEnd(a), NewEnd(b))
    && forall i :: 0 <= i < |events| ==> ShortNext(states[i], sides[i], events[i], states[i + 1], ready)
  }

  lemma {:induction false} ShortRunKeeps(
    states: seq<Pair>, sides: seq<bool>, events: seq<Event>, a: Config, b: Config, ready: bool, k: nat)
    requires IsShortRun(states, sides, events, a, b, ready) && k < |states|
    ensures Inv(states[k], ready)
    decreases k
  {
    if k == 0 {
      NewPairInv(a, b, ready);
    } else {
      ShortRunKeeps(states, sides, events, a, b, ready, k - 1);
      ShortNextKeeps(states[k - 1], sides[k - 1], events[k - 1], states[k], ready);
    }
  }

  /** The same safety for streams under 2^31, however old what arrives. */
  lemma ShortRunIsSafe(
    states: seq<Pair>, sides: seq<bool>, events: seq<Event>, a: Config, b: Config, ready: bool, k: nat)
    requires IsShortRun(states, sides, events, a, b, ready) && k < |states|
    ensures Inv(states[k], ready) && Safe(states[k], ready)
  {
    ShortRunKeeps(states, sides, events, a, b, ready, k);
    InvIsSafe(states[k], ready);
  }
}
