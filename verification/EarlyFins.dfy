/**
 The runs of the network with no condition on the first FIN: what stays safe
 when it comes ahead of missing bytes.
 */
module EarlyFins {
  import opened Numbers
  import opened WrappingIntegers
  import opened TcpSegments
  import opened Reassembly
  import RR = ReassemblyRefinement
  import opened Senders
  import SL = SenderLedger
  import opened Receivers
  import RW = ReceiverWindow
  import N = Network

  /** The receiver holds bytes of the source only, all of them sent, and has heard FIN only if it was sent. */
  ghost predicate Sound(r: Receiver, src: SL.Source, next: nat) {
    && RW.Inv(r) && RR.Agrees(r.reassembler, src.history)
    && (forall i :: RR.Accepted(r.reassembler, i) ==> i + 1 < next)
    && (r.finReceived ==> src.ended && next == |src.history| + 2)
    && (r.synReceived ==> r.isn == src.isn && next >= 1)
  }

  /** How far an acknowledgment may go: one number beyond the next byte, and not beyond what was sent. */
  predicate AckBound(abs: nat, r: Receiver, next: nat) {
    r.synReceived && abs <= next && abs <= r.reassembler.first + 2
  }

  ghost predicate Inv(net: N.Net) {
    && SL.Inv(net.sender)
    && Sound(net.receiver, SL.SourceOf(net.sender), net.sender.next)
    && (forall a :: a in net.acks ==>
          AckBound(a.abs, net.receiver, net.sender.next) && 1 <= a.abs && a.ackno == Wrap(a.abs, net.sender.isn))
    && (net.sender.recvAckno > 0 ==> AckBound(net.sender.recvAckno, net.receiver, net.sender.next))
  }

  // ---------- the receiver ----------

  lemma FirstIsWritten(r: Receiver, src: SL.Source, next: nat)
    requires Sound(r, src, next)
    ensures r.reassembler.first <= |src.history| && (r.reassembler.first > 0 ==> r.reassembler.first < next)
  {
    assert |r.reassembler.output.History()| == r.reassembler.first;
    if r.reassembler.first > 0 {
      assert RR.Accepted(r.reassembler, r.reassembler.first - 1);
    }
  }

  /** The receiver never acknowledges what was not sent. */
  lemma AcknoSent(r: Receiver, src: SL.Source, next: nat)
    requires Sound(r, src, next) && r.synReceived
    ensures AckBound(AbsAckno(r), r, next)
  {
    FirstIsWritten(r, src, next);
  }

  lemma SoundGrows(r: Receiver, src: SL.Source, next: nat, src': SL.Source, next': nat)
    requires Sound(r, src, next) && SL.Grows(src, src') && next <= next'
    requires r.finReceived ==> next' == next
    ensures Sound(r, src', next')
  {
    forall k | 0 <= k < |r.reassembler.pieces| ensures r.reassembler.pieces[k].CutFrom(src'.history) {
      assert r.reassembler.pieces[k].CutFrom(src.history);
    }
  }

  /** Pushing bytes of the source keeps the reassembler on it. */
  lemma PushIsSound(q: Reassembler, q': Reassembler, n: Numbered, index: nat, src: SL.Source, next: nat)
    requires RR.Inv(q) && RR.Agrees(q, src.history) && (forall i :: RR.Accepted(q, i) ==> i + 1 < next)
    requires SL.Genuine(n, src) && !n.seg.header.syn && n.at + n.seg.Length() <= next
    requires n.seg.Length() > 0 ==> index == n.at - 1
    requires RR.Pushed(q, q', n.seg.payload, index)
    ensures RR.Agrees(q', src.history) && (forall i :: RR.Accepted(q', i) ==> i + 1 < next)
  {
    var data := n.seg.payload;
    forall i | RR.Offered(i, data, index, q.RightEdge())
      ensures i < |src.history| && src.history[i] == data[i - index]
    {
      assert data[i - index] == src.history[index..index + |data|][i - index];
    }
    assert RR.Matches(src.history, data, index, q.RightEdge());
  }

  lemma FirstGrows(q: Reassembler, q': Reassembler, data: bytes, index: nat)
    requires RR.Inv(q) && Pushable(q, data, index) && RR.Pushed(q, q', data, index)
    ensures q'.first >= q.first
  {
    RW.PushMoves(q, q', data, index);
  }

  /** A genuine segment after the SYN. */
  lemma DataArrives(r: Receiver, n: Numbered, src: SL.Source, next: nat)
    requires Sound(r, src, next) && r.synReceived && next < TWO64 && !Ignores(r, n.seg)
    requires SL.Genuine(n, src) && n.at + n.seg.Length() <= next && N.Near(n.at, r.checkpoint)
    requires Deliverable(r, n.seg) && (n.seg.header.fin ==> next == |src.history| + 2)
    ensures Sound(SegmentReceived(r, n.seg), src, next) && SegmentReceived(r, n.seg).synReceived
    ensures SegmentReceived(r, n.seg).reassembler.first >= r.reassembler.first
  {
    var r1 := PushPayload(r, n.seg);
    FirstIsWritten(r, src, next);
    N.StartExact(r, n, src);
    RW.PushPayloadKeeps(r, n.seg);
    if Inbound(r, n.seg) {
      PushIsSound(r.reassembler, r1.reassembler, n, PayloadIndex(r, n.seg), src, next);
      FirstGrows(r.reassembler, r1.reassembler, n.seg.payload, PayloadIndex(r, n.seg));
    }
    FinishIsSound(r1, n.seg, src, next);
  }

  lemma FinishIsSound(r: Receiver, seg: Segment, src: SL.Source, next: nat)
    requires RR.Inv(r.reassembler) && r.checkpoint == r.reassembler.first && r.synReceived
    requires RR.Agrees(r.reassembler, src.history) && (forall i :: RR.Accepted(r.reassembler, i) ==> i + 1 < next)
    requires r.isn == src.isn && next >= 1 && !(seg.header.syn && seg.header.fin)
    requires r.finReceived || seg.header.fin ==> src.ended && next == |src.history| + 2
    ensures Sound(UpdateAckno(NoteFin(r, seg)), src, next)
  {
    RW.FinishKeeps(r, seg);
  }

  lemma SynArrives(r: Receiver, n: Numbered, src: SL.Source, next: nat)
    requires Sound(r, src, next) && !r.synReceived && n.seg.header.syn
    requires SL.Genuine(n, src) && n.at + n.seg.Length() <= next && Deliverable(r, n.seg)
    ensures Sound(SegmentReceived(r, n.seg), src, next)
    ensures SegmentReceived(r, n.seg).reassembler.first >= r.reassembler.first
  {
    var r0 := Open(r, n.seg);
    assert PushPayload(r0, n.seg) == r0;
    FinishIsSound(r0, n.seg, src, next);
  }

  lemma ReadIsSound(r: Receiver, count: nat, src: SL.Source, next: nat)
    requires Sound(r, src, next)
    ensures Sound(ReadOutput(r, count), src, next)
  {
    RW.ReadKeeps(r, count);
    RR.ReadKeeps(r.reassembler, count);
    assert RR.Agrees(ReadOutput(r, count).reassembler, src.history);
  }

  // ---------- one step ----------

  /** The receiver may have got further, and acknowledgments stay bounded. */
  lemma ReceiverMoves(net: N.Net, r': Receiver)
    requires Inv(net) && Sound(r', SL.SourceOf(net.sender), net.sender.next)
    requires r'.reassembler.first >= net.receiver.reassembler.first && (net.receiver.synReceived ==> r'.synReceived)
    ensures Inv(net.(receiver := r'))
  {
  }

  lemma ArrivalKeeps(net: N.Net, n: Numbered)
    requires Inv(net) && N.Wired(net, N.SegmentArrives(n)) && N.Unambiguous(net, N.SegmentArrives(n))
    requires Deliverable(net.receiver, n.seg)
    ensures Inv(net.(receiver := SegmentReceived(net.receiver, n.seg)))
  {
    var s, r, src := net.sender, net.receiver, SL.SourceOf(net.sender);
    assert SL.Genuine(n, src) && n.at + n.seg.Length() <= s.next;
    if !Ignores(r, n.seg) {
      if n.seg.header.syn {
        SynArrives(r, n, src, s.next);
      } else {
        if n.seg.header.fin {
          N.FinNumbers(s, n);
        }
        DataArrives(r, n, src, s.next);
      }
      ReceiverMoves(net, SegmentReceived(r, n.seg));
    }
  }

  lemma ReadKeeps(net: N.Net, count: nat)
    requires Inv(net)
    ensures Inv(net.(receiver := ReadOutput(net.receiver, count)))
  {
    ReadIsSound(net.receiver, count, SL.SourceOf(net.sender), net.sender.next);
    ReceiverMoves(net, ReadOutput(net.receiver, count));
  }

  /** Acknowledgments of what the receiver has got now. */
  lemma RepliesKeep(net: N.Net, acks: set<N.Ack>)
    requires Inv(net)
    requires forall a :: a in acks && a !in net.acks ==>
               net.receiver.synReceived && a.abs == AbsAckno(net.receiver) && a.ackno == net.receiver.ackno
    ensures Inv(net.(acks := acks))
  {
    if net.receiver.synReceived {
      AcknoSent(net.receiver, SL.SourceOf(net.sender), net.sender.next);
    }
  }

  /** Calls on the sender other than acknowledgments. */
  lemma SenderMoves(net: N.Net, s': Sender)
    requires Inv(net) && SL.Inv(s') && SL.Grows(SL.SourceOf(net.sender), SL.SourceOf(s'))
    requires s'.next >= net.sender.next && s'.recvAckno == net.sender.recvAckno
    ensures Inv(net.(sender := s'))
  {
    if net.receiver.finReceived {
      assert s'.next <= |SL.SourceOf(s').history| + 2;
    }
    SoundGrows(net.receiver, SL.SourceOf(net.sender), net.sender.next, SL.SourceOf(s'), s'.next);
  }

  /** An acknowledgment is never rejected, and moves the sender no further than it says. */
  lemma AckKeeps(net: N.Net, a: N.Ack)
    requires Inv(net) && a in net.acks && N.Unambiguous(net, N.AckArrives(a))
    ensures AckAcceptable(net.sender, a.ackno)
    ensures Inv(net.(sender := AckReceived(net.sender, a.ackno, a.window)))
  {
    var s := net.sender;
    var s' := AckReceived(s, a.ackno, a.window);
    UnwrapNear(a.abs, s.isn, s.next);
    SL.AckKeeps(s, a.ackno, a.window);
    AckedNoFurther(s, s', a);
    if net.receiver.finReceived {
      assert s'.next <= |SL.SourceOf(s').history| + 2;
    }
    SoundGrows(net.receiver, SL.SourceOf(s), s.next, SL.SourceOf(s'), s'.next);
  }

  lemma AckedNoFurther(s: Sender, s': Sender, a: N.Ack)
    requires SL.AckMoves(s, s', a.ackno) && Unwrap(a.ackno, s.isn, s.next) == a.abs
    ensures s'.recvAckno == s.recvAckno || s'.recvAckno <= a.abs
  {
  }

  /** One step, with no condition on the first FIN. */
  ghost predicate Next(net: N.Net, e: N.Event, net': N.Net) {
    N.Wired(net, e) && N.Effect(net, e, net') && N.Unambiguous(net, e)
  }

  lemma StepKeeps(net: N.Net, e: N.Event, net': N.Net)
    requires Inv(net) && Next(net, e, net')
    ensures Inv(net')
  {
    match e
    case SegmentArrives(n) => ArrivalKeeps(net, n);
    case ReceiverReplies => RepliesKeep(net, net'.acks);
    case AckArrives(a) => AckKeeps(net, a);
    case AppReads(count) => ReadKeeps(net, count);
    case _ =>
      N.SenderCall(net.sender, e, net'.sender);
      SenderMoves(net, net'.sender);
  }

  // ---------- whole runs ----------

  /** What no FIN can break. */
  ghost predicate Safe(net: N.Net) {
    var s, r := net.sender, net.receiver;
    // the output is a prefix of the bytes written at the sender
    && r.Output().History() <= s.stream.History()
    // the receiver acknowledges nothing that was not sent
    && (r.synReceived ==> AbsAckno(r) <= s.next)
    // at most one byte is acknowledged and not written to the output
    && (s.recvAckno > 0 ==> Min(s.recvAckno - 1, |s.stream.History()|) <= |r.Output().History()| + 1)
    // no acknowledgment that may still arrive is rejected
    && (forall a :: a in net.acks && N.Unambiguous(net, N.AckArrives(a)) ==> AckAcceptable(s, a.ackno))
  }

  lemma InvIsSafe(net: N.Net)
    requires Inv(net)
    ensures Safe(net)
  {
    var s, r := net.sender, net.receiver;
    assert |r.Output().History()| == r.reassembler.first;
    if r.synReceived {
      AcknoSent(r, SL.SourceOf(s), s.next);
    }
    forall a | a in net.acks && N.Unambiguous(net, N.AckArrives(a)) ensures AckAcceptable(s, a.ackno) {
      AckKeeps(net, a);
    }
  }

  lemma NewNetInv(sendCapacity: nat, timeout: u16, isn: u32, recvCapacity: nat)
    ensures Inv(N.NewNet(sendCapacity, timeout, isn, recvCapacity))
  {
    SL.NewSenderInv(sendCapacity, timeout, isn);
  }

  ghost predicate IsRun(
    states: seq<N.Net>, events: seq<N.Event>, sendCapacity: nat, timeout: u16, isn: u32, recvCapacity: nat)
  {
    && |states| == |events| + 1 && states[0] == N.NewNet(sendCapacity, timeout, isn, recvCapacity)
    && forall i :: 0 <= i < |events| ==> Next(states[i], events[i], states[i + 1])
  }

  lemma {:induction false} RunKeeps(
    states: seq<N.Net>, events: seq<N.Event>, sendCapacity: nat, timeout: u16, isn: u32, recvCapacity: nat, k: nat)
    requires IsRun(states, events, sendCapacity, timeout, isn, recvCapacity) && k < |states|
    ensures Inv(states[k])
    decreases k
  {
    if k == 0 {
      NewNetInv(sendCapacity, timeout, isn, recvCapacity);
    } else {
      RunKeeps(states, events, sendCapacity, timeout, isn, recvCapacity, k - 1);
      StepKeeps(states[k - 1], events[k - 1], states[k]);
    }
  }

  /** Prefix safety: whatever the FINs, every state of every run is safe in this sense. */
  lemma RunIsSafe(
    states: seq<N.Net>, events: seq<N.Event>, sendCapacity: nat, timeout: u16, isn: u32, recvCapacity: nat, k: nat)
    requires IsRun(states, events, sendCapacity, timeout, isn, recvCapacity) && k < |states|
    ensures Inv(states[k]) && Safe(states[k])
  {
    RunKeeps(states, events, sendCapacity, timeout, isn, recvCapacity, k);
    InvIsSafe(states[k]);
  }

  /** A run whose FINs are ready, and one more step. */
  lemma RunSnoc(
    states: seq<N.Net>, events: seq<N.Event>, e: N.Event, net': N.Net,
    sendCapacity: nat, timeout: u16, isn: u32, recvCapacity: nat)
    returns (states': seq<N.Net>, events': seq<N.Event>)
    requires N.IsRun(states, events, sendCapacity, timeout, isn, recvCapacity)
    requires Next(states[|events|], e, net')
    ensures IsRun(states', events', sendCapacity, timeout, isn, recvCapacity)
    ensures states'[|events'|] == net'
  {
    states', events' := states + [net'], events + [e];
    forall i | 0 <= i < |events'| ensures Next(states'[i], events'[i], states'[i + 1]) {
      if i < |events| {
        assert events'[i] == events[i] && states'[i] == states[i] && states'[i + 1] == states[i + 1];
        assert N.Next(states[i], events[i], states[i + 1]);
      }
    }
  }

  // ---------- short streams ----------

  lemma ShortIsSmall(net: N.Net)
    requires Inv(net) && N.Short(net)
    ensures net.sender.next < TWO31 && SL.Small(net.sender) && net.receiver.checkpoint < TWO31
  {
    assert net.sender.stream.BytesRead() <= |net.sender.stream.History()|;
    FirstIsWritten(net.receiver, SL.SourceOf(net.sender), net.sender.next);
  }

  /** For short streams nothing on the wire is ambiguous. */
  lemma ShortIsNear(net: N.Net, e: N.Event)
    requires Inv(net) && N.Short(net) && N.Wired(net, e)
    ensures N.Unambiguous(net, e)
  {
    ShortIsSmall(net);
    if e.SegmentArrives? {
      assert SL.Genuine(e.n, SL.SourceOf(net.sender)) && e.n.at + e.n.seg.Length() <= net.sender.next;
    }
  }

  ghost predicate ShortNext(net: N.Net, e: N.Event, net': N.Net) {
    N.Short(net) && N.Wired(net, e) && N.Effect(net, e, net')
  }

  lemma ShortStepKeeps(net: N.Net, e: N.Event, net': N.Net)
    requires Inv(net) && ShortNext(net, e, net')
    ensures Inv(net')
  {
    ShortIsNear(net, e);
    StepKeeps(net, e, net');
  }

  ghost predicate IsShortRun(
    states: seq<N.Net>, events: seq<N.Event>, sendCapacity: nat, timeout: u16, isn: u32, recvCapacity: nat)
  {
    && |states| == |events| + 1 && states[0] == N.NewNet(sendCapacity, timeout, isn, recvCapacity)
    && forall i :: 0 <= i < |events| ==> ShortNext(states[i], events[i], states[i + 1])
  }

  lemma {:induction false} ShortRunKeeps(
    states: seq<N.Net>, events: seq<N.Event>, sendCapacity: nat, timeout: u16, isn: u32, recvCapacity: nat, k: nat)
    requires IsShortRun(states, events, sendCapacity, timeout, isn, recvCapacity) && k < |states|
    ensures Inv(states[k])
    decreases k
  {
    if k == 0 {
      NewNetInv(sendCapacity, timeout, isn, recvCapacity);
    } else {
      ShortRunKeeps(states, events, sendCapacity, timeout, isn, recvCapacity, k - 1);
      ShortStepKeeps(states[k - 1], events[k - 1], states[k]);
    }
  }

  /** Prefix safety of streams under 2^31, with no condition on FINs and none on the age of what arrives. */
  lemma ShortRunIsSafe(
    states: seq<N.Net>, events: seq<N.Event>, sendCapacity: nat, timeout: u16, isn: u32, recvCapacity: nat, k: nat)
    requires IsShortRun(states, events, sendCapacity, timeout, isn, recvCapacity) && k < |states|
    ensures Inv(states[k]) && Safe(states[k])
    ensures N.Short(states[k]) ==> forall a :: a in states[k].acks ==> AckAcceptable(states[k].sender, a.ackno)
  {
    ShortRunKeeps(states, events, sendCapacity, timeout, isn, recvCapacity, k);
    InvIsSafe(states[k]);
    if N.Short(states[k]) {
      forall a | a in states[k].acks ensures AckAcceptable(states[k].sender, a.ackno) {
        ShortAckIsNear(states[k], a);
      }
    }
  }

  lemma ShortAckIsNear(net: N.Net, a: N.Ack)
    requires Inv(net) && N.Short(net) && a in net.acks
    ensures N.Unambiguous(net, N.AckArrives(a))
  {
    ShortIsSmall(net);
  }
}
