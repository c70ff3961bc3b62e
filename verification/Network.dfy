/**
 One sender and one receiver over a network that may lose, duplicate and
 reorder: whatever was ever sent may arrive at any time, any number of times,
 or never.
 */
module Network {
  import opened Numbers
  import opened WrappingIntegers
  import opened TcpSegments
  import opened Reassembly
  import RR = ReassemblyRefinement
  import Runs = ReassemblyRuns
  import opened Senders
  import SL = SenderLedger
  import opened Receivers
  import RW = ReceiverWindow

  /** An acknowledgment on the wire, with the absolute number it stands for. */
  datatype Ack = Ack(abs: nat, ackno: u32, window: u16)

  /** The segments on the wire are those in the sender's log. */
  datatype Net = Net(sender: Sender, receiver: Receiver, acks: set<Ack>)

  datatype Event =
    | AppWrites(data: bytes) | AppEnds | SenderFills | SenderAcks | TimePasses(ms: nat)
    | SegmentArrives(n: Numbered)
    | ReceiverReplies
    | AckArrives(a: Ack)
    | AppReads(count: nat)

  function NewNet(sendCapacity: nat, timeout: u16, isn: u32, recvCapacity: nat): Net {
    Net(NewSender(sendCapacity, timeout, isn), NewReceiver(recvCapacity), {})
  }

  /** Less than 2^31 away, so that 32 bits identify the number. */
  predicate Near(a: nat, checkpoint: nat) {
    -TWO31 < a - checkpoint <= TWO31
  }

  /** The length of the stream that a FIN ends. */
  function StreamEnd(n: Numbered): nat {
    Max(n.at - 1, 0) + |n.seg.payload|
  }

  /** A first FIN has or finds the last byte of the stream; outside the window its own bytes do not count. */
  predicate FinReady(r: Receiver, n: Numbered)
    requires r.reassembler.output.Bounded()
  {
    n.seg.header.fin && r.synReceived && !r.finReceived ==>
      Runs.FinFits(r.reassembler, if Inbound(r, n.seg) then n.seg.payload else [], StreamEnd(n))
  }

  /** What may happen: the network delivers anything ever sent, and the application does not write after the end. */
  predicate Wired(net: Net, e: Event) {
    && net.sender.stream.Bounded() && net.receiver.reassembler.output.Bounded()
    && match e
       case AppWrites(_) => !net.sender.stream.ended
       case SegmentArrives(n) => n in net.sender.log
       case ReceiverReplies => net.receiver.synReceived
       case AckArrives(a) => a in net.acks
       case _ => true
  }

  /** The same, with a first FIN that is ready. */
  predicate Possible(net: Net, e: Event) {
    Wired(net, e) && (e.SegmentArrives? ==> FinReady(net.receiver, e.n))
  }

  /** No number that arrives is so old that 32 bits do not identify it. */
  predicate Unambiguous(net: Net, e: Event) {
    && SL.Small(net.sender)
    && match e
       case SegmentArrives(n) => net.receiver.synReceived ==> Near(n.at, net.receiver.checkpoint)
       case AckArrives(a) => Near(a.abs, net.sender.next)
       case _ => true
  }

  function Reply(r: Receiver): Ack
    requires r.reassembler.output.Bounded()
  {
    Ack(AbsAckno(r), r.ackno, Min(r.WindowSize(), 0xffff))
  }

  /** What an event does. */
  ghost predicate Effect(net: Net, e: Event, net': Net)
    requires Wired(net, e)
  {
    match e
    case AppWrites(data) => net' == net.(sender := Write(net.sender, data))
    case AppEnds => net' == net.(sender := EndInput(net.sender))
    case SenderFills => net' == net.(sender := FillWindow(net.sender))
    case SenderAcks => net' == net.(sender := SendEmpty(net.sender))
    case TimePasses(ms) => net' == net.(sender := Tick(net.sender, ms))
    case SegmentArrives(n) =>
      Deliverable(net.receiver, n.seg) && net' == net.(receiver := SegmentReceived(net.receiver, n.seg))
    case ReceiverReplies => net' == net.(acks := net.acks + {Reply(net.receiver)})
    case AckArrives(a) => net' == net.(sender := AckReceived(net.sender, a.ackno, a.window))
    case AppReads(count) => net' == net.(receiver := ReadOutput(net.receiver, count))
  }

  /** One step, whatever the numbers. */
  ghost predicate Step(net: Net, e: Event, net': Net) {
    Possible(net, e) && Effect(net, e, net')
  }

  ghost predicate Next(net: Net, e: Event, net': Net) {
    Step(net, e, net') && Unambiguous(net, e)
  }

  // ---------- the invariant ----------

  /** The reassembler holds bytes of the source only, all of them sent, and knows its end only if FIN was sent. */
  ghost predicate Follows(q: Reassembler, src: SL.Source, next: nat) {
    && RR.Agrees(q, src.history)
    && Runs.EofExact(q, |src.history|)
    && (forall i :: RR.Accepted(q, i) ==> i + 1 < next)
    && (q.eof ==> src.ended && next == |src.history| + 2)
  }

  /** FIN was sent, and the last byte before it is written or stored. */
  ghost predicate FinSent(q: Reassembler, src: SL.Source, next: nat) {
    src.ended && next == |src.history| + 2 && Runs.EndKnown(q, |src.history|)
  }

  ghost predicate Tracks(r: Receiver, src: SL.Source, next: nat) {
    && RW.Inv(r) && Follows(r.reassembler, src, next)
    && (r.reassembler.eof ==> r.finReceived)
    && (r.finReceived ==> FinSent(r.reassembler, src, next))
    && (r.synReceived ==> r.isn == src.isn && next >= 1)
  }

  ghost predicate AcksBehind(acks: set<Ack>, r: Receiver, isn: u32) {
    forall a :: a in acks ==> r.synReceived && a.ackno == Wrap(a.abs, isn) && 1 <= a.abs <= AbsAckno(r)
  }

  ghost predicate Inv(net: Net) {
    && SL.Inv(net.sender)
    && Tracks(net.receiver, SL.SourceOf(net.sender), net.sender.next)
    && AcksBehind(net.acks, net.receiver, net.sender.isn)
    && net.sender.recvAckno <= (if net.receiver.synReceived then AbsAckno(net.receiver) else 0)
  }

  /** When the acknowledgment number counts the FIN, the whole stream has been written. */
  lemma FinCounted(r: Receiver, src: SL.Source, next: nat)
    requires Tracks(r, src, next) && r.finReceived && r.reassembler.Empty()
    ensures r.reassembler.first == |src.history|
  {
    RR.TotalZero(r.reassembler.pieces, r.reassembler.first, r.reassembler.RightEdge());
  }

  /** The receiver never acknowledges what was not sent. */
  lemma AcknoSent(r: Receiver, src: SL.Source, next: nat)
    requires Tracks(r, src, next) && r.synReceived
    ensures AbsAckno(r) <= next
  {
    var q := r.reassembler;
    if r.finReceived && q.Empty() {
      FinCounted(r, src, next);
    } else if q.first > 0 {
      assert RR.Accepted(q, q.first - 1);
    }
  }

  lemma FollowsGrows(q: Reassembler, src: SL.Source, next: nat, src': SL.Source, next': nat)
    requires Follows(q, src, next) && SL.Grows(src, src') && next <= next'
    requires q.eof ==> next' == next
    ensures Follows(q, src', next')
    ensures FinSent(q, src, next) && next' == next ==> FinSent(q, src', next')
  {
    forall k | 0 <= k < |q.pieces| ensures q.pieces[k].CutFrom(src'.history) {
      assert q.pieces[k].CutFrom(src.history);
    }
  }

  /** Pushing bytes of the source keeps the reassembler on it. */
  lemma FollowsPush(q: Reassembler, q': Reassembler, data: bytes, index: nat, fin: bool, src: SL.Source, next: nat)
    requires Follows(q, src, next) && RR.Pushed(q, q', data, index) && RR.PushOutcome(q, q', data, index, fin)
    requires data != [] ==> && index + |data| <= |src.history| && data == src.history[index..index + |data|]
                            && index + |data| < next
    requires Runs.EofCall(q, Runs.PushCall(data, index, fin), |src.history|)
    requires fin ==> src.ended && next == |src.history| + 2
    ensures Follows(q', src, next)
  {
    Runs.PushedEof(q, q', Runs.PushCall(data, index, fin), |src.history|);
    forall i | RR.Offered(i, data, index, q.RightEdge())
      ensures i < |src.history| && src.history[i] == data[i - index]
    {
      assert data[i - index] == src.history[index..index + |data|][i - index];
    }
    assert RR.Matches(src.history, data, index, q.RightEdge());
  }

  /** A genuine segment near the checkpoint is found where the sender put it. */
  lemma StartExact(r: Receiver, n: Numbered, src: SL.Source)
    requires r.isn == src.isn && SL.Genuine(n, src) && Near(n.at, r.checkpoint)
    requires n.at < TWO64 && r.checkpoint < TWO64
    ensures SegmentStart(r, n.seg) == n.at
    ensures n.at >= 1 ==> PayloadIndex(r, n.seg) == n.at - 1
  {
    UnwrapNear(n.at, r.isn, r.checkpoint);
  }

  /** Genuine bytes that pass the window test start at or below the right edge. */
  lemma InboundFits(r: Receiver, n: Numbered, src: SL.Source, next: nat)
    requires Tracks(r, src, next) && r.synReceived && next < TWO64
    requires SL.Genuine(n, src) && n.at + n.seg.Length() <= next && Near(n.at, r.checkpoint)
    requires Inbound(r, n.seg) && n.seg.payload != [] && !n.seg.header.syn
    ensures n.at >= 1 && PayloadIndex(r, n.seg) == n.at - 1 <= r.reassembler.RightEdge()
  {
    AcknoSent(r, src, next);
    StartExact(r, n, src);
    RW.WindowStartExact(r);
    if r.finReceived && r.reassembler.Empty() {
      FinCounted(r, src, next);
    } else {
      WindowEndBelow(WindowStart(r) + Max(r.WindowSize(), 1) - 1);
      WindowEndBelow(n.at + n.seg.Length() - 1);
    }
  }

  lemma WindowEndBelow(x: nat)
    ensures x % TWO64 <= x && (x < TWO64 ==> x % TWO64 == x)
  {
  }

  /** The payload is pushed; FIN and the acknowledgment number remain. */
  lemma FinishTracks(r: Receiver, seg: Segment, src: SL.Source, next: nat)
    requires RR.Inv(r.reassembler) && r.checkpoint == r.reassembler.first && r.synReceived
    requires Follows(r.reassembler, src, next) && r.isn == src.isn && next >= 1
    requires !(seg.header.syn && seg.header.fin) && (r.reassembler.eof ==> r.finReceived || seg.header.fin)
    requires r.finReceived || seg.header.fin ==> FinSent(r.reassembler, src, next)
    ensures Tracks(UpdateAckno(NoteFin(r, seg)), src, next)
  {
    RW.FinishKeeps(r, seg);
  }

  /** A genuine segment that passes the window test meets the reassembler's demand. */
  lemma PayloadFits(r: Receiver, n: Numbered, src: SL.Source, next: nat)
    requires Tracks(r, src, next) && r.synReceived && next < TWO64 && !n.seg.header.syn
    requires SL.Genuine(n, src) && n.at + n.seg.Length() <= next && Near(n.at, r.checkpoint)
    ensures Inbound(r, n.seg) ==> Pushable(r.reassembler, n.seg.payload, PayloadIndex(r, n.seg))
    ensures n.seg.Length() > 0 ==> PayloadIndex(r, n.seg) == n.at - 1
  {
    AcknoSent(r, src, next);
    StartExact(r, n, src);
    if Inbound(r, n.seg) && n.seg.payload != [] {
      InboundFits(r, n, src, next);
    }
  }

  /** A FIN that is not ignored fits: it is ready, or an earlier one was. */
  lemma FinFitsNow(r: Receiver, n: Numbered, src: SL.Source, next: nat)
    requires Tracks(r, src, next) && r.synReceived && n.seg.header.fin && FinReady(r, n)
    requires SL.Genuine(n, src)
    ensures StreamEnd(n) == |src.history|
    ensures Runs.FinFits(r.reassembler, if Inbound(r, n.seg) then n.seg.payload else [], |src.history|)
    ensures !Inbound(r, n.seg) ==> Runs.EndKnown(r.reassembler, |src.history|)
  {
    Runs.EndKnownIff(r.reassembler, |src.history|);
  }

  /** The payload of a genuine segment keeps the reassembler on the source. */
  lemma PayloadFollows(r: Receiver, n: Numbered, src: SL.Source, next: nat)
    requires Tracks(r, src, next) && r.synReceived && next < TWO64 && !n.seg.header.syn
    requires SL.Genuine(n, src) && n.at + n.seg.Length() <= next && Near(n.at, r.checkpoint)
    requires FinReady(r, n) && !Ignores(r, n.seg) && (n.seg.header.fin ==> next == |src.history| + 2)
    ensures Inbound(r, n.seg) ==> Pushable(r.reassembler, n.seg.payload, PayloadIndex(r, n.seg))
    ensures Follows(PushPayload(r, n.seg).reassembler, src, next)
    ensures PushPayload(r, n.seg).reassembler.eof ==> r.reassembler.eof || n.seg.header.fin
    ensures r.finReceived || n.seg.header.fin ==> FinSent(PushPayload(r, n.seg).reassembler, src, next)
  {
    PayloadFits(r, n, src, next);
    RW.PushPayloadKeeps(r, n.seg);
    if n.seg.header.fin {
      FinFitsNow(r, n, src, next);
    }
    if Inbound(r, n.seg) {
      PushedFollows(r.reassembler, PushPayload(r, n.seg).reassembler, n, PayloadIndex(r, n.seg), src, next);
    }
  }

  lemma PushedFollows(q: Reassembler, q': Reassembler, n: Numbered, index: nat, src: SL.Source, next: nat)
    requires Follows(q, src, next) && SL.Genuine(n, src) && !n.seg.header.syn && n.at + n.seg.Length() <= next
    requires n.seg.Length() > 0 ==> index == n.at - 1
    requires RR.Pushed(q, q', n.seg.payload, index) && RR.PushOutcome(q, q', n.seg.payload, index, n.seg.header.fin)
    requires n.seg.header.fin ==> next == |src.history| + 2 && Runs.FinFits(q, n.seg.payload, |src.history|)
    ensures Follows(q', src, next) && q'.eof == (q.eof || n.seg.header.fin)
    ensures FinSent(q, src, next) || n.seg.header.fin ==> FinSent(q', src, next)
  {
    FollowsPush(q, q', n.seg.payload, index, n.seg.header.fin, src, next);
    PushKnows(q, q', n.seg.payload, index, n.seg.header.fin, |src.history|);
  }

  /** The last byte stays known, and a FIN that fits makes it known. */
  lemma PushKnows(q: Reassembler, q': Reassembler, data: bytes, index: nat, fin: bool, n: nat)
    requires Runs.EofExact(q, n) && RR.Pushed(q, q', data, index)
    ensures Runs.EndKnown(q, n) ==> Runs.EndKnown(q', n)
    ensures fin && index + |data| == n && Runs.FinFits(q, data, n) ==> Runs.EndKnown(q', n)
  {
    if n > 0 {
      assert RR.Accepted(q, n - 1) ==> RR.Accepted(q', n - 1);
    }
    if fin && index + |data| == n {
      Runs.PushedEnd(q, q', data, index, n);
    }
  }

  lemma NoGapReopened(r: Receiver, n: Numbered, src: SL.Source, next: nat)
    requires Tracks(r, src, next) && r.synReceived && next < TWO64 && !n.seg.header.syn
    requires SL.Genuine(n, src) && n.at + n.seg.Length() <= next && Near(n.at, r.checkpoint)
    ensures !RW.ReopensGap(r, n.seg)
  {
    if RW.ReopensGap(r, n.seg) {
      FinCounted(r, src, next);
      InboundFits(r, n, src, next);
    }
  }

  /** The arrival of a genuine segment after the SYN. */
  lemma DataArrives(r: Receiver, n: Numbered, src: SL.Source, next: nat)
    requires Tracks(r, src, next) && r.synReceived && next < TWO64 && !Ignores(r, n.seg)
    requires SL.Genuine(n, src) && n.at + n.seg.Length() <= next && Near(n.at, r.checkpoint)
    requires FinReady(r, n) && (n.seg.header.fin ==> next == |src.history| + 2)
    ensures Deliverable(r, n.seg) && Tracks(SegmentReceived(r, n.seg), src, next)
    ensures AbsAckno(SegmentReceived(r, n.seg)) >= AbsAckno(r)
  {
    PayloadFollows(r, n, src, next);
    RW.PushPayloadKeeps(r, n.seg);
    FinishTracks(PushPayload(r, n.seg), n.seg, src, next);
    RW.AcknoMonotoneIff(r, n.seg);
    NoGapReopened(r, n, src, next);
  }

  /** The arrival of the SYN. */
  lemma SynArrives(r: Receiver, n: Numbered, src: SL.Source, next: nat)
    requires Tracks(r, src, next) && !r.synReceived && n.seg.header.syn
    requires SL.Genuine(n, src) && n.at + n.seg.Length() <= next
    ensures Deliverable(r, n.seg) && Tracks(SegmentReceived(r, n.seg), src, next)
  {
    var r0 := Open(r, n.seg);
    assert Push(r.reassembler, [], PayloadIndex(r0, n.seg), false) == r.reassembler;
    assert PushPayload(r0, n.seg) == r0;
    FinishTracks(r0, n.seg, src, next);
  }

  /** No genuine segment ever violates the precondition of the reassembler. */
  lemma ArrivalKeeps(net: Net, n: Numbered)
    requires Inv(net) && Possible(net, SegmentArrives(n)) && Unambiguous(net, SegmentArrives(n))
    ensures Deliverable(net.receiver, n.seg)
    ensures Inv(net.(receiver := SegmentReceived(net.receiver, n.seg)))
  {
    var s, r, src := net.sender, net.receiver, SL.SourceOf(net.sender);
    assert SL.Genuine(n, src) && n.at + n.seg.Length() <= s.next;
    if !Ignores(r, n.seg) {
      if n.seg.header.syn {
        SynArrives(r, n, src, s.next);
      } else {
        if n.seg.header.fin {
          FinNumbers(s, n);
        }
        DataArrives(r, n, src, s.next);
      }
    }
  }

  /** A FIN in the log ends at `next`. */
  lemma FinNumbers(s: Sender, n: Numbered)
    requires SL.Inv(s) && n in s.log && n.seg.header.fin
    ensures s.next == |SL.SourceOf(s).history| + 2
  {
    assert SL.Genuine(n, SL.SourceOf(s)) && n.at + n.seg.Length() <= s.next;
    assert s.stream.BytesRead() <= |s.stream.History()|;
  }

  /** Calls on the sender other than acknowledgments. */
  lemma SenderMoves(net: Net, s': Sender)
    requires Inv(net) && SL.Inv(s') && SL.Grows(SL.SourceOf(net.sender), SL.SourceOf(s'))
    requires s'.next >= net.sender.next && s'.recvAckno == net.sender.recvAckno
    ensures Inv(net.(sender := s'))
  {
    var s := net.sender;
    if net.receiver.finReceived {
      assert s'.next <= |SL.SourceOf(s').history| + 2;
    }
    FollowsGrows(net.receiver.reassembler, SL.SourceOf(s), s.next, SL.SourceOf(s'), s'.next);
  }

  /** An acknowledgment is never rejected, and moves the sender no further than the receiver has got. */
  lemma AckKeeps(net: Net, a: Ack)
    requires Inv(net) && Possible(net, AckArrives(a)) && Unambiguous(net, AckArrives(a))
    ensures AckAcceptable(net.sender, a.ackno)
    ensures Inv(net.(sender := AckReceived(net.sender, a.ackno, a.window)))
  {
    var s, r := net.sender, net.receiver;
    var s' := AckReceived(s, a.ackno, a.window);
    AcknoSent(r, SL.SourceOf(s), s.next);
    UnwrapNear(a.abs, s.isn, s.next);
    SL.AckKeeps(s, a.ackno, a.window);
    if r.finReceived {
      assert s'.next <= |SL.SourceOf(s').history| + 2;
    }
    FollowsGrows(r.reassembler, SL.SourceOf(s), s.next, SL.SourceOf(s'), s'.next);
  }

  lemma ReadKeeps(net: Net, n: nat)
    requires Inv(net)
    ensures Inv(net.(receiver := ReadOutput(net.receiver, n)))
  {
    ReadTracks(net.receiver, n, SL.SourceOf(net.sender), net.sender.next);
  }

  lemma ReadTracks(r: Receiver, count: nat, src: SL.Source, next: nat)
    requires Tracks(r, src, next)
    ensures Tracks(ReadOutput(r, count), src, next) && AbsAckno(ReadOutput(r, count)) == AbsAckno(r)
  {
    RW.ReadKeeps(r, count);
    FollowsRead(r.reassembler, Read(r.reassembler, count), count, src, next);
  }

  lemma FollowsRead(q: Reassembler, q': Reassembler, count: nat, src: SL.Source, next: nat)
    requires Follows(q, src, next) && q' == Read(q, count)
    ensures Follows(q', src, next) && (FinSent(q, src, next) ==> FinSent(q', src, next))
  {
    RR.ReadKeeps(q, count);
    assert RR.Agrees(q', src.history);
  }

  /** Every step of the network keeps the invariant. */
  lemma StepKeeps(net: Net, e: Event, net': Net)
    requires Inv(net) && Next(net, e, net')
    ensures Inv(net')
  {
    if e.SegmentArrives? {
      ArrivalKeeps(net, e.n);
    } else {
      OtherStepKeeps(net, e, net');
    }
  }

  lemma OtherStepKeeps(net: Net, e: Event, net': Net)
    requires Inv(net) && Wired(net, e) && Effect(net, e, net') && Unambiguous(net, e) && !e.SegmentArrives?
    ensures Inv(net')
  {
    match e
    case ReceiverReplies => RepliesKeep(net, net'.acks);
    case AckArrives(a) => AckKeeps(net, a);
    case AppReads(count) => ReadKeeps(net, count);
    case _ =>
      SenderCall(net.sender, e, net'.sender);
      SenderMoves(net, net'.sender);
  }

  /** Acknowledgments of what the receiver has got now. */
  lemma RepliesKeep(net: Net, acks: set<Ack>)
    requires Inv(net)
    requires forall a :: a in acks && a !in net.acks ==>
               net.receiver.synReceived && a.abs == AbsAckno(net.receiver) && a.ackno == net.receiver.ackno
    ensures Inv(net.(acks := acks))
  {
  }

  /** The calls on the sender that are not acknowledgments. */
  lemma SenderCall(s: Sender, e: Event, s': Sender)
    requires SL.Inv(s)
    requires match e
             case AppWrites(data) => !s.stream.ended && s' == Write(s, data)
             case AppEnds => s' == EndInput(s)
             case SenderFills => s' == FillWindow(s)
             case SenderAcks => s' == SendEmpty(s)
             case TimePasses(ms) => s' == Tick(s, ms)
             case _ => s' == s
    ensures SL.Inv(s') && SL.Advances(s, s') && s'.recvAckno == s.recvAckno
  {
    match e
    case AppWrites(data) => SL.WriteKeeps(s, data);
    case AppEnds => SL.EndInputKeeps(s);
    case SenderFills =>
      SL.FillKeeps(s);
      SL.FillWindowFrame(s);
    case SenderAcks => SL.SendEmptyKeeps(s);
    case TimePasses(ms) => SL.TickKeeps(s, ms);
    case _ =>
  }

  // ---------- whole runs ----------

  ghost predicate IsRun(
    states: seq<Net>, events: seq<Event>, sendCapacity: nat, timeout: u16, isn: u32, recvCapacity: nat)
  {
    && |states| == |events| + 1 && states[0] == NewNet(sendCapacity, timeout, isn, recvCapacity)
    && forall i :: 0 <= i < |events| ==> Next(states[i], events[i], states[i + 1])
  }

  /** What holds in every state of every run. */
  ghost predicate Safe(net: Net) {
    var s, r := net.sender, net.receiver;
    // the output is a prefix of the bytes written at the sender, and ended only when it is all of them
    && r.Output().History() <= s.stream.History()
    && (r.Output().ended ==> s.stream.ended && r.Output().History() == s.stream.History())
    // the two ends agree on how far they have got
    && (r.synReceived ==> s.recvAckno <= AbsAckno(r) <= s.next)
    && (!r.synReceived ==> s.recvAckno == 0)
    // everything acknowledged has been written to the output
    && (s.recvAckno >= 1 ==> Min(s.recvAckno - 1, |s.stream.History()|) <= |r.Output().History()|)
    && (s.recvAckno == |s.stream.History()| + 2 ==> r.Output().History() == s.stream.History())
    // no acknowledgment that may still arrive is rejected
    && (forall a :: Possible(net, AckArrives(a)) && Unambiguous(net, AckArrives(a)) ==> AckAcceptable(s, a.ackno))
    // no genuine segment that may still arrive leaves the reassembler's range
    && (forall n :: Possible(net, SegmentArrives(n)) && Unambiguous(net, SegmentArrives(n)) ==> Deliverable(r, n.seg))
  }

  lemma InvIsSafe(net: Net)
    requires Inv(net)
    ensures Safe(net)
  {
    var s, r, src := net.sender, net.receiver, SL.SourceOf(net.sender);
    if r.synReceived {
      AcknoSent(r, src, s.next);
      if r.finReceived && r.reassembler.Empty() {
        FinCounted(r, src, s.next);
      }
    }
    assert |r.Output().History()| == r.reassembler.first;
    forall a | Possible(net, AckArrives(a)) && Unambiguous(net, AckArrives(a)) ensures AckAcceptable(s, a.ackno) {
      UnwrapNear(a.abs, s.isn, s.next);
    }
    forall n | Possible(net, SegmentArrives(n)) && Unambiguous(net, SegmentArrives(n)) ensures Deliverable(r, n.seg) {
      ArrivalKeeps(net, n);
    }
  }

  lemma NewNetInv(sendCapacity: nat, timeout: u16, isn: u32, recvCapacity: nat)
    ensures Inv(NewNet(sendCapacity, timeout, isn, recvCapacity))
  {
  }

  lemma {:induction false} RunKeeps(
    states: seq<Net>, events: seq<Event>, sendCapacity: nat, timeout: u16, isn: u32, recvCapacity: nat, k: nat)
    requires IsRun(states, events, sendCapacity, timeout, isn, recvCapacity) && k < |states|
    ensures Inv(states[k])
    decreases k
  {
    if k == 0 {
      NewNetInv(sendCapacity, timeout, isn, recvCapacity);
    } else {
      RunKeeps(states, events, sendCapacity, timeout, isn, recvCapacity, k - 1);
      StepKeeps(states[k - 1], events[k - 1], states[k]);
    }
  }

  /** End-to-end safety: every state of every run is safe. */
  lemma RunIsSafe(
    states: seq<Net>, events: seq<Event>, sendCapacity: nat, timeout: u16, isn: u32, recvCapacity: nat, k: nat)
    requires IsRun(states, events, sendCapacity, timeout, isn, recvCapacity) && k < |states|
    ensures Inv(states[k]) && Safe(states[k])
  {
    RunKeeps(states, events, sendCapacity, timeout, isn, recvCapacity, k);
    InvIsSafe(states[k]);
  }

  /** One more step extends a run. */
  lemma RunSnoc(
    states: seq<Net>, events: seq<Event>, e: Event, net': Net,
    sendCapacity: nat, timeout: u16, isn: u32, recvCapacity: nat)
    returns (states': seq<Net>, events': seq<Event>)
    requires IsRun(states, events, sendCapacity, timeout, isn, recvCapacity)
    requires Next(states[|events|], e, net')
    ensures IsRun(states', events', sendCapacity, timeout, isn, recvCapacity)
    ensures states'[|events'|] == net'
  {
    states', events' := states + [net'], events + [e];
    forall i | 0 <= i < |events'| ensures Next(states'[i], events'[i], states'[i + 1]) {
      if i < |events| {
        assert events'[i] == events[i] && states'[i] == states[i] && states'[i + 1] == states[i + 1];
      }
    }
  }

  // ---------- short streams ----------

  /** The stream written so far, with SYN and FIN, takes less than 2^31 sequence numbers. */
  predicate Short(net: Net) {
    |net.sender.stream.History()| + 2 < TWO31
  }

  lemma ShortIsSmall(net: Net)
    requires Inv(net) && Short(net)
    ensures net.sender.next < TWO31 && SL.Small(net.sender)
  {
    assert net.sender.stream.BytesRead() <= |net.sender.stream.History()|;
  }

  /** For short streams no segment ever sent is ambiguous. */
  lemma ShortSegmentIsNear(net: Net, n: Numbered)
    requires Inv(net) && Short(net) && n in net.sender.log
    ensures Unambiguous(net, SegmentArrives(n))
  {
    ShortIsSmall(net);
    assert SL.Genuine(n, SL.SourceOf(net.sender)) && n.at + n.seg.Length() <= net.sender.next;
    if net.receiver.synReceived {
      AcknoSent(net.receiver, SL.SourceOf(net.sender), net.sender.next);
    }
  }

  /** For short streams no acknowledgment ever sent is ambiguous. */
  lemma ShortAckIsNear(net: Net, a: Ack)
    requires Inv(net) && Short(net) && a in net.acks
    ensures Unambiguous(net, AckArrives(a))
  {
    ShortIsSmall(net);
    AcknoSent(net.receiver, SL.SourceOf(net.sender), net.sender.next);
  }

  ghost predicate ShortNext(net: Net, e: Event, net': Net) {
    Short(net) && Step(net, e, net')
  }

  lemma ShortStepKeeps(net: Net, e: Event, net': Net)
    requires Inv(net) && ShortNext(net, e, net')
    ensures Inv(net')
  {
    ShortIsSmall(net);
    if e.SegmentArrives? {
      ShortSegmentIsNear(net, e.n);
    } else if e.AckArrives? {
      ShortAckIsNear(net, e.a);
    }
    StepKeeps(net, e, net');
  }

  /** A run of short streams, in which anything ever sent may arrive at any time. */
  ghost predicate IsShortRun(
    states: seq<Net>, events: seq<Event>, sendCapacity: nat, timeout: u16, isn: u32, recvCapacity: nat)
  {
    && |states| == |events| + 1 && states[0] == NewNet(sendCapacity, timeout, isn, recvCapacity)
    && forall i :: 0 <= i < |events| ==> ShortNext(states[i], events[i], states[i + 1])
  }

  /** Safety with no condition on the age of what arrives. */
  ghost predicate ShortSafe(net: Net) {
    && Safe(net)
    && (forall a :: a in net.acks ==> AckAcceptable(net.sender, a.ackno))
    && (forall n :: Possible(net, SegmentArrives(n)) ==> Deliverable(net.receiver, n.seg))
  }

  lemma {:induction false} ShortRunKeeps(
    states: seq<Net>, events: seq<Event>, sendCapacity: nat, timeout: u16, isn: u32, recvCapacity: nat, k: nat)
    requires IsShortRun(states, events, sendCapacity, timeout, isn, recvCapacity) && k < |states|
    ensures Inv(states[k])
    decreases k
  {
    if k == 0 {
      NewNetInv(sendCapacity, timeout, isn, recvCapacity);
    } else {
      ShortRunKeeps(states, events, sendCapacity, timeout, isn, recvCapacity, k - 1);
      ShortStepKeeps(states[k - 1], events[k - 1], states[k]);
    }
  }

  /** End-to-end safety of short streams: every state is safe, however old the segments that arrive. */
  lemma ShortRunIsSafe(
    states: seq<Net>, events: seq<Event>, sendCapacity: nat, timeout: u16, isn: u32, recvCapacity: nat, k: nat)
    requires IsShortRun(states, events, sendCapacity, timeout, isn, recvCapacity) && k < |states|
    ensures Inv(states[k]) && Safe(states[k]) && (Short(states[k]) ==> ShortSafe(states[k]))
  {
    ShortRunKeeps(states, events, sendCapacity, timeout, isn, recvCapacity, k);
    InvIsSafe(states[k]);
    if Short(states[k]) {
      ShortInvIsSafe(states[k]);
    }
  }

  lemma ShortInvIsSafe(net: Net)
    requires Inv(net) && Short(net)
    ensures ShortSafe(net)
  {
    InvIsSafe(net);
    forall a | a in net.acks ensures AckAcceptable(net.sender, a.ackno) {
      ShortAckIsNear(net, a);
      assert Possible(net, AckArrives(a));
    }
    forall n | Possible(net, SegmentArrives(n)) ensures Deliverable(net.receiver, n.seg) {
      ShortSegmentIsNear(net, n);
    }
  }
}
