/** What the first FIN does to the receiver, over everything that may follow it. */
module FinArrivals {
  import opened Numbers
  import opened WrappingIntegers
  import opened TcpSegments
  import opened Reassembly
  import RR = ReassemblyRefinement
  import Runs = ReassemblyRuns
  import opened Senders
  import SL = SenderLedger
  import opened Receivers
  import RW = ReceiverWindow
  import opened Network

  /** The receiver neither ends its output nor acknowledges the FIN before all `n` bytes are written. */
  predicate FinHonest(r: Receiver, n: nat) {
    && (r.Output().ended ==> r.reassembler.first == n)
    && (r.finReceived && r.reassembler.Empty() ==> r.reassembler.first == n)
  }

  // ---------- continuations ----------

  /** What may follow at the receiver. */
  datatype Arrival = Arrives(n: Numbered) | Reads(count: nat)

  /** A segment with bytes of the source, not so old that its number is ambiguous. */
  ghost predicate Legal(r: Receiver, a: Arrival, src: SL.Source) {
    a.Arrives? ==>
      && SL.Genuine(a.n, src) && a.n.at + a.n.seg.Length() <= |src.history| + 2
      && Near(a.n.at, r.checkpoint) && Deliverable(r, a.n.seg)
  }

  function After(r: Receiver, a: Arrival): Receiver
    requires a.Arrives? ==> Deliverable(r, a.n.seg)
  {
    match a
    case Arrives(n) => SegmentReceived(r, n.seg)
    case Reads(count) => ReadOutput(r, count)
  }

  ghost predicate Continues(states: seq<Receiver>, arrivals: seq<Arrival>, r: Receiver, src: SL.Source) {
    && |states| == |arrivals| + 1 && states[0] == r
    && forall i :: 0 <= i < |arrivals| ==>
         Legal(states[i], arrivals[i], src) && states[i + 1] == After(states[i], arrivals[i])
  }

  /** Whatever segments of the source and reads follow, the receiver stays honest about the end. */
  ghost predicate AlwaysHonest(r: Receiver, src: SL.Source) {
    forall states, arrivals :: Continues(states, arrivals, r, src) ==>
      FinHonest(states[|arrivals|], |src.history|)
  }

  // ---------- a FIN that has or finds the last byte ----------

  lemma AfterTracks(r: Receiver, a: Arrival, src: SL.Source, next: nat)
    requires Tracks(r, src, next) && r.synReceived && r.finReceived && next < TWO64 && Legal(r, a, src)
    ensures Tracks(After(r, a), src, next) && After(r, a).synReceived && After(r, a).finReceived
  {
    match a
    case Arrives(n) =>
      if !Ignores(r, n.seg) {
        DataArrives(r, n, src, next);
      }
    case Reads(count) =>
      ReadTracks(r, count, src, next);
  }

  lemma {:induction false} KnownEndTracks(
    states: seq<Receiver>, arrivals: seq<Arrival>, r: Receiver, src: SL.Source, next: nat, k: nat)
    requires Tracks(r, src, next) && r.synReceived && r.finReceived && next < TWO64
    requires Continues(states, arrivals, r, src) && k < |states|
    ensures Tracks(states[k], src, next) && states[k].synReceived && states[k].finReceived
    decreases k
  {
    if k > 0 {
      KnownEndTracks(states, arrivals, r, src, next, k - 1);
      AfterTracks(states[k - 1], arrivals[k - 1], src, next);
    }
  }

  lemma TracksHonest(r: Receiver, src: SL.Source, next: nat)
    requires Tracks(r, src, next)
    ensures FinHonest(r, |src.history|)
  {
    if r.finReceived && r.reassembler.Empty() {
      FinCounted(r, src, next);
    }
  }

  lemma ReadyIsHonest(r: Receiver, src: SL.Source, next: nat)
    requires Tracks(r, src, next) && r.synReceived && r.finReceived && next < TWO64
    ensures AlwaysHonest(r, src)
  {
    forall states, arrivals | Continues(states, arrivals, r, src)
      ensures FinHonest(states[|arrivals|], |src.history|)
    {
      KnownEndTracks(states, arrivals, r, src, next, |arrivals|);
      TracksHonest(states[|arrivals|], src, next);
    }
  }

  // ---------- a FIN ahead of the last byte ----------

  /** The receiver took a FIN while the last byte was missing. */
  ghost predicate Deceived(r: Receiver, src: SL.Source) {
    && RW.Inv(r) && r.synReceived && r.finReceived && r.isn == src.isn
    && RR.Agrees(r.reassembler, src.history)
    && (forall i :: RR.Accepted(r.reassembler, i) ==> i < |src.history|)
    && !Runs.EndKnown(r.reassembler, |src.history|)
  }

  /** The segment that brings the bytes from the first one missing up to `last`. */
  function Filler(r: Receiver, src: SL.Source, last: nat): Numbered
    requires r.reassembler.first <= last <= |src.history|
  {
    var first := r.reassembler.first;
    Numbered(first + 1, Segment(PLAIN_HEADER.(seqno := Wrap(first + 1, r.isn)), src.history[first..last]))
  }

  /** The filler passes the window test at the front of the window. */
  lemma FillerArrives(r: Receiver, src: SL.Source, last: nat)
    requires Deceived(r, src) && !r.reassembler.Empty()
    requires r.reassembler.first < last < |src.history| && r.reassembler.RightEdge() + 2 < TWO64
    ensures var n := Filler(r, src, last);
            && SL.Genuine(n, src) && Near(n.at, r.checkpoint) && !Ignores(r, n.seg) && Inbound(r, n.seg)
            && PayloadIndex(r, n.seg) == r.reassembler.first && Deliverable(r, n.seg)
  {
    var n, first := Filler(r, src, last), r.reassembler.first;
    RW.WindowStartExact(r);
    StartExact(r, n, src);
    WindowEndBelow(WindowStart(r) + Max(r.WindowSize(), 1) - 1);
  }

  /** Once it has arrived the FIN is acknowledged, although the last byte is missing. */
  lemma FillerDeceives(r: Receiver, src: SL.Source) returns (a: Arrival)
    requires Deceived(r, src) && !r.reassembler.Empty() && r.reassembler.RightEdge() + 2 < TWO64
    ensures Legal(r, a, src) && !FinHonest(After(r, a), |src.history|)
  {
    var q := r.reassembler;
    RR.TotalZero(q.pieces, q.first, q.RightEdge());
    var last := Runs.LastStored(q.pieces);
    Runs.StoredBelow(q, last, |src.history|);
    var n := Filler(r, src, last);
    FillerArrives(r, src, last);
    a := Arrives(n);
    RW.PushPayloadKeeps(r, n.seg);
    Filled(q, PushPayload(r, n.seg).reassembler, n.seg.payload, last);
  }

  lemma Filled(q: Reassembler, q': Reassembler, data: bytes, last: nat)
    requires RR.Inv(q) && q.first < last <= q.RightEdge() && |data| == last - q.first
    requires forall k :: 0 <= k < |q.pieces| ==> q.pieces[k].End() <= last
    requires RR.Pushed(q, q', data, q.first)
    ensures q'.Empty() && q'.first == last
  {
    Runs.AcceptedBelow(q, last);
    Runs.StoreDrained(q, q', data, q.first, last);
  }

  lemma DeceivedIsDishonest(r: Receiver, src: SL.Source)
    requires Deceived(r, src) && r.reassembler.RightEdge() + 2 < TWO64
    ensures !AlwaysHonest(r, src)
  {
    if r.reassembler.Empty() {
      assert !FinHonest(r, |src.history|);
      assert Continues([r], [], r, src);
    } else {
      var a := FillerDeceives(r, src);
      assert Continues([r, After(r, a)], [a], r, src);
    }
  }

  // ---------- the exact condition ----------

  /** After a first FIN the last byte is known exactly if the FIN was ready. */
  lemma FinTaken(r: Receiver, n: Numbered, src: SL.Source, next: nat)
    requires Tracks(r, src, next) && r.synReceived && !r.finReceived && next == |src.history| + 2 < TWO64
    requires SL.Genuine(n, src) && n.seg.header.fin && Near(n.at, r.checkpoint)
    ensures Deliverable(r, n.seg)
    ensures var r' := SegmentReceived(r, n.seg);
            && r'.reassembler.RightEdge() == r.reassembler.RightEdge()
            && (FinReady(r, n) ==> Tracks(r', src, next) && r'.synReceived && r'.finReceived)
            && (!FinReady(r, n) ==> Deceived(r', src))
  {
    PayloadFits(r, n, src, next);
    if FinReady(r, n) {
      DataArrives(r, n, src, next);
    } else {
      FinUnready(r, n, src, next);
    }
    RW.PushPayloadKeeps(r, n.seg);
  }

  lemma FinUnready(r: Receiver, n: Numbered, src: SL.Source, next: nat)
    requires Tracks(r, src, next) && r.synReceived && !r.finReceived && next == |src.history| + 2 < TWO64
    requires SL.Genuine(n, src) && n.seg.header.fin && Near(n.at, r.checkpoint)
    requires Deliverable(r, n.seg) && !FinReady(r, n)
    ensures Deceived(SegmentReceived(r, n.seg), src)
  {
    RW.SegmentKeeps(r, n.seg);
    UnreadyPush(r, n, PushPayload(r, n.seg), src, next);
    FinNoted(PushPayload(r, n.seg), n.seg, SegmentReceived(r, n.seg), src);
  }

  lemma UnreadyPush(r: Receiver, n: Numbered, r': Receiver, src: SL.Source, next: nat)
    requires Tracks(r, src, next) && r.synReceived && !r.finReceived && next == |src.history| + 2 < TWO64
    requires SL.Genuine(n, src) && n.seg.header.fin && Near(n.at, r.checkpoint) && !FinReady(r, n)
    requires Inbound(r, n.seg) ==> Pushable(r.reassembler, n.seg.payload, PayloadIndex(r, n.seg))
    requires r' == PushPayload(r, n.seg)
    ensures r'.synReceived && r'.isn == src.isn && RR.Agrees(r'.reassembler, src.history)
    ensures forall i :: RR.Accepted(r'.reassembler, i) ==> i < |src.history|
    ensures !Runs.EndKnown(r'.reassembler, |src.history|)
  {
    RW.PushPayloadKeeps(r, n.seg);
    assert StreamEnd(n) == |src.history|;
    if Inbound(r, n.seg) {
      PayloadFits(r, n, src, next);
      EndStaysUnknown(r.reassembler, r'.reassembler, n, src);
    } else {
      EndIsUnknown(r.reassembler, |src.history|);
    }
  }

  lemma EndIsUnknown(q: Reassembler, n: nat)
    requires Runs.EofExact(q, n) && !Runs.FinFits(q, [], n)
    ensures !Runs.EndKnown(q, n) && forall i :: RR.Accepted(q, i) ==> i < n
  {
    Runs.AcceptedBelow(q, n);
    Runs.EndKnownIff(q, n);
  }

  lemma FinNoted(r: Receiver, seg: Segment, r': Receiver, src: SL.Source)
    requires r' == UpdateAckno(NoteFin(r, seg)) && RW.Inv(r') && seg.header.fin && !seg.header.syn
    requires r.synReceived && r.isn == src.isn && RR.Agrees(r.reassembler, src.history)
    requires forall i :: RR.Accepted(r.reassembler, i) ==> i < |src.history|
    requires !Runs.EndKnown(r.reassembler, |src.history|)
    ensures Deceived(r', src)
  {
  }

  lemma EndStaysUnknown(q: Reassembler, q': Reassembler, n: Numbered, src: SL.Source)
    requires Runs.EofExact(q, |src.history|) && RR.Agrees(q, src.history) && SL.Genuine(n, src) && n.seg.header.fin
    requires RR.Pushed(q, q', n.seg.payload, n.at - 1) && !Runs.FinFits(q, n.seg.payload, |src.history|)
    ensures RR.Agrees(q', src.history) && !Runs.EndKnown(q', |src.history|)
    ensures forall i :: RR.Accepted(q', i) ==> i < |src.history|
  {
    Runs.AcceptedBelow(q, |src.history|);
    Runs.PushedEnd(q, q', n.seg.payload, n.at - 1, |src.history|);
    GenuineMatches(q, n, src);
  }

  lemma GenuineMatches(q: Reassembler, n: Numbered, src: SL.Source)
    requires SL.Genuine(n, src) && n.seg.header.fin
    ensures RR.Matches(src.history, n.seg.payload, n.at - 1, q.RightEdge())
  {
    var data, index := n.seg.payload, n.at - 1;
    forall i | RR.Offered(i, data, index, q.RightEdge()) ensures i < |src.history| && src.history[i] == data[i - index] {
      assert data[i - index] == src.history[index..index + |data|][i - index];
    }
  }

  /**
   The exact condition on a first FIN: nothing that may follow makes the receiver
   end its output or acknowledge the FIN early, if and only if the FIN has or
   finds the last byte.
   */
  lemma FinArrivalIff(r: Receiver, n: Numbered, src: SL.Source)
    requires Tracks(r, src, |src.history| + 2) && r.synReceived && !r.finReceived
    requires |src.history| + 2 < TWO64 && r.reassembler.RightEdge() + 2 < TWO64
    requires SL.Genuine(n, src) && n.seg.header.fin && Near(n.at, r.checkpoint)
    ensures Deliverable(r, n.seg)
    ensures AlwaysHonest(SegmentReceived(r, n.seg), src) <==> FinReady(r, n)
  {
    FinTaken(r, n, src, |src.history| + 2);
    if FinReady(r, n) {
      ReadyIsHonest(SegmentReceived(r, n.seg), src, |src.history| + 2);
    } else {
      DeceivedIsDishonest(SegmentReceived(r, n.seg), src);
    }
  }
}
