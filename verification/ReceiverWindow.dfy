/** What the receiver keeps for every segment, genuine or not. */
module ReceiverWindow {
  import opened Numbers
  import opened WrappingIntegers
  import opened TcpSegments
  import opened Reassembly
  import RR = ReassemblyRefinement
  import Runs = ReassemblyRuns
  import opened Receivers

  ghost predicate Inv(r: Receiver) {
    && RR.Inv(r.reassembler)
    && r.checkpoint == r.reassembler.first
    && (r.synReceived ==> r.ackno == Wrap(AbsAckno(r), r.isn))
    && (!r.synReceived ==>
          && r.reassembler.first == 0 && r.reassembler.pieces == []
          && !r.finReceived && !r.reassembler.eof && !r.reassembler.output.ended)
  }

  /** The window starts at the acknowledgment number. */
  lemma WindowStartExact(r: Receiver)
    requires Inv(r) && r.synReceived && AbsAckno(r) < TWO64
    ensures WindowStart(r) == AbsAckno(r)
  {
    UnwrapNear(AbsAckno(r), r.isn, r.checkpoint);
  }

  /** What pushing the payload of an inbound segment does to the reassembler. */
  lemma PushPayloadKeeps(r: Receiver, seg: Segment)
    requires RR.Inv(r.reassembler) && r.checkpoint == r.reassembler.first
    requires Inbound(r, seg) ==> Pushable(r.reassembler, seg.payload, PayloadIndex(r, seg))
    ensures var r' := PushPayload(r, seg);
            && RR.Inv(r'.reassembler) && r'.checkpoint == r'.reassembler.first
            && r' == r.(reassembler := r'.reassembler, checkpoint := r'.checkpoint)
            && (Inbound(r, seg) ==>
                  && RR.Pushed(r.reassembler, r'.reassembler, seg.payload, PayloadIndex(r, seg))
                  && RR.PushOutcome(r.reassembler, r'.reassembler, seg.payload, PayloadIndex(r, seg), seg.header.fin))
            && (!Inbound(r, seg) ==> r' == r)
  {
    if Inbound(r, seg) {
      RR.PushKeeps(r.reassembler, seg.payload, PayloadIndex(r, seg), seg.header.fin);
    }
  }

  lemma FinishKeeps(r: Receiver, seg: Segment)
    requires RR.Inv(r.reassembler) && r.checkpoint == r.reassembler.first && r.synReceived
    ensures Inv(UpdateAckno(NoteFin(r, seg)))
  {
    var r' := NoteFin(r, seg);
    assert RR.Inv(r'.reassembler);
  }

  /** The invariant is kept whatever segment arrives. */
  lemma SegmentKeeps(r: Receiver, seg: Segment)
    requires Inv(r) && Deliverable(r, seg)
    ensures Inv(SegmentReceived(r, seg))
  {
    if !Ignores(r, seg) {
      PushPayloadKeeps(Open(r, seg), seg);
      FinishKeeps(PushPayload(Open(r, seg), seg), seg);
    }
  }

  lemma ReadKeeps(r: Receiver, n: nat)
    requires Inv(r)
    ensures Inv(ReadOutput(r, n)) && AbsAckno(ReadOutput(r, n)) == AbsAckno(r)
  {
    RR.ReadKeeps(r.reassembler, n);
  }

  /** The acknowledgment number counts a FIN, so that the window starts one late. */
  predicate FinIsCounted(r: Receiver) {
    r.finReceived && r.reassembler.Empty()
  }

  /**
   A payload that passes the window test starts at or below the reassembler's
   right edge exactly when its number is not zero, its end does not wrap around
   2^64, and it is not the one number that a closed window admits after a FIN
   was counted.
   */
  lemma InboundFitsIff(r: Receiver, seg: Segment)
    requires Inv(r) && r.synReceived && !seg.header.syn && seg.payload != []
    requires r.reassembler.RightEdge() + seg.Length() + 2 < TWO64
    requires Inbound(r, seg)
    ensures Pushable(r.reassembler, seg.payload, PayloadIndex(r, seg)) <==>
            && 1 <= SegmentStart(r, seg) && SegmentStart(r, seg) + seg.Length() - 1 < TWO64
            && !(FinIsCounted(r) && r.WindowSize() == 0 && SegmentStart(r, seg) == r.reassembler.first + 2)
  {
    UnwrapIsNearest(seg.header.seqno, r.isn, r.checkpoint);
    WindowEndExact(r);
    FitsArithmetic(SegmentStart(r, seg), seg.Length(), r.reassembler.first, r.WindowSize(), FinIsCounted(r));
  }

  lemma FitsArithmetic(start: nat, len: nat, first: nat, window: nat, fin: bool)
    requires start < TWO64 && len >= 1 && first + window + len + 2 < TWO64
    requires var from := if fin then first + 2 else first + 1;
             || from <= start <= from + Max(window, 1) - 1
             || from <= (start + len - 1) % TWO64 <= from + Max(window, 1) - 1
    ensures (start - 1) % TWO64 <= first + window <==>
            1 <= start && start + len - 1 < TWO64 && !(fin && window == 0 && start == first + 2)
  {
    if start + len - 1 >= TWO64 {
      assert (start + len - 1) % TWO64 == start + len - 1 - TWO64;
    } else {
      assert (start + len - 1) % TWO64 == start + len - 1;
    }
    if start >= 1 {
      assert (start - 1) % TWO64 == start - 1;
    }
  }

  lemma WindowEndExact(r: Receiver)
    requires Inv(r) && r.synReceived && r.reassembler.RightEdge() + 2 < TWO64
    ensures WindowStart(r) == AbsAckno(r)
    ensures WindowEnd(r) == AbsAckno(r) + Max(r.WindowSize(), 1) - 1
    ensures r.reassembler.RightEdge() == r.reassembler.first + r.WindowSize()
  {
    WindowStartExact(r);
  }

  /** The acknowledgment number already counts a FIN, and the segment stores bytes ahead of missing ones. */
  predicate ReopensGap(r: Receiver, seg: Segment)
    requires r.reassembler.output.Bounded()
  {
    && r.finReceived && r.reassembler.Empty() && !Ignores(r, seg) && Inbound(r, seg) && seg.payload != []
    && r.reassembler.first < PayloadIndex(r, seg) < r.reassembler.RightEdge()
  }

  /** The acknowledgment number never decreases, except exactly then. */
  lemma AcknoMonotoneIff(r: Receiver, seg: Segment)
    requires Inv(r) && r.synReceived && Deliverable(r, seg)
    ensures AbsAckno(SegmentReceived(r, seg)) >= AbsAckno(r) <==> !ReopensGap(r, seg)
  {
    if !Ignores(r, seg) {
      var r1 := PushPayload(r, seg);
      PushPayloadKeeps(r, seg);
      RR.TotalZero(r.reassembler.pieces, r.reassembler.first, r.reassembler.RightEdge());
      RR.TotalZero(r1.reassembler.pieces, r1.reassembler.first, r1.reassembler.RightEdge());
      if Inbound(r, seg) {
        PushMoves(r.reassembler, r1.reassembler, seg.payload, PayloadIndex(r, seg));
      }
    }
  }

  /** How a push moves the first unassembled byte and the emptiness of the store. */
  lemma PushMoves(r: Reassembler, r': Reassembler, data: bytes, index: nat)
    requires RR.Inv(r) && Pushable(r, data, index) && RR.Pushed(r, r', data, index)
    ensures r'.first >= r.first
    ensures r.pieces == [] && data != [] && r.first < index < r.RightEdge() ==> r'.first == r.first && r'.pieces != []
    ensures !(data != [] && r.first < index < r.RightEdge()) && r.pieces == [] ==> r'.first > r.first || r'.pieces == []
  {
    forall i | 0 <= i < r.first ensures RR.Accepted(r', i) {
      assert RR.Accepted(r, i);
    }
    Runs.FirstIsLeast(r', r.first);
    if r.pieces == [] {
      assert !RR.Accepted(r, r.first);
      if data != [] && r.first < index < r.RightEdge() {
        assert RR.Accepted(r', index);
        assert !RR.Accepted(r', r.first);
      } else if r'.pieces != [] {
        var i := r'.pieces[0].index;
        assert r'.pieces[0].Has(i);
        assert RR.Accepted(r', i);
        assert !RR.Accepted(r, i);
        assert RR.Accepted(r', r.first);
      }
    }
  }

  // ---------- inputs for which the conditions fail ----------

  function SynSegment(isn: u32): Segment {
    Segment(PLAIN_HEADER.(seqno := isn, syn := true), [])
  }

  function DataSegment(abs: nat, isn: u32, payload: bytes): Segment {
    Segment(PLAIN_HEADER.(seqno := Wrap(abs, isn)), payload)
  }

  function FinSegment(abs: nat, isn: u32): Segment {
    Segment(PLAIN_HEADER.(seqno := Wrap(abs, isn), fin := true), [])
  }

  /** A new receiver after a SYN. */
  lemma AfterSyn(capacity: nat, isn: u32) returns (r: Receiver)
    ensures Deliverable(NewReceiver(capacity), SynSegment(isn))
    ensures r == SegmentReceived(NewReceiver(capacity), SynSegment(isn)) && Inv(r)
    ensures r == NewReceiver(capacity).(synReceived := true, isn := isn, ackno := Wrap(1, isn))
  {
    var r0 := Open(NewReceiver(capacity), SynSegment(isn));
    assert PushPayload(r0, SynSegment(isn)) == r0;
    r := UpdateAckno(r0);
  }

  lemma NoWrap(x: int)
    requires 0 <= x < TWO64
    ensures x % TWO64 == x
  {
  }

  /** Where a segment of a new connection is found. */
  lemma EarlySegment(r: Receiver, abs: nat, seg: Segment)
    requires Inv(r) && r.synReceived && r.reassembler.first == 0 && r.reassembler.RightEdge() + 2 < TWO64
    requires seg.header.seqno == Wrap(abs, r.isn) && 0 <= abs <= 10
    ensures SegmentStart(r, seg) == abs && WindowStart(r) == AbsAckno(r)
    ensures WindowEnd(r) == AbsAckno(r) + Max(r.WindowSize(), 1) - 1
    ensures PayloadIndex(r, seg) == if abs >= 1 then abs - 1 else TWO64 - 1
    ensures |seg.payload| <= 10 ==> SegmentEnd(r, seg) == abs + Max(seg.Length(), 1) - 1
  {
    UnwrapNear(abs, r.isn, 0);
    WindowEndExact(r);
    if abs >= 1 {
      NoWrap(abs - 1);
    }
    if |seg.payload| <= 10 {
      NoWrap(abs + Max(seg.Length(), 1) - 1);
    }
  }

  /**
   Two bytes numbered from the SYN itself pass the window test, and their index
   wraps around: it is far beyond the right edge.
   */
  lemma StaleNumberLeavesRange(capacity: nat, isn: u32) returns (r: Receiver)
    requires 1 <= capacity < TWO64 - 2
    ensures Deliverable(NewReceiver(capacity), SynSegment(isn))
    ensures r == SegmentReceived(NewReceiver(capacity), SynSegment(isn)) && Inv(r)
    ensures Inbound(r, DataSegment(0, isn, [1, 2])) && !Deliverable(r, DataSegment(0, isn, [1, 2]))
  {
    r := AfterSyn(capacity, isn);
    EarlySegment(r, 0, DataSegment(0, isn, [1, 2]));
  }

  /** A receiver with room for one byte after a SYN and that byte: its window is closed. */
  lemma AfterFirstByte(capacity: nat, isn: u32, x: u8) returns (r: Receiver, r1: Receiver)
    requires capacity == 1
    ensures Deliverable(NewReceiver(capacity), SynSegment(isn))
    ensures r == SegmentReceived(NewReceiver(capacity), SynSegment(isn)) && Deliverable(r, DataSegment(1, isn, [x]))
    ensures r1 == SegmentReceived(r, DataSegment(1, isn, [x])) && Inv(r1) && r1.synReceived && r1.isn == isn
    ensures r1.reassembler.first == 1 == r1.reassembler.RightEdge() && r1.reassembler.pieces == []
    ensures !r1.finReceived && !r1.reassembler.eof
  {
    r := AfterSyn(capacity, isn);
    var seg := DataSegment(1, isn, [x]);
    EarlySegment(r, 1, seg);
    PushPayloadKeeps(r, seg);
    SegmentKeeps(r, seg);
    r1 := SegmentReceived(r, seg);
    Runs.StoreDrained(r.reassembler, PushPayload(r, seg).reassembler, [x], 0, 1);
  }

  /** A number that the receiver unwraps around its second byte. */
  lemma NextSegment(r: Receiver, abs: nat, seg: Segment)
    requires Inv(r) && r.synReceived && r.reassembler.first == 1 == r.reassembler.RightEdge()
    requires seg.header.seqno == Wrap(abs, r.isn) && 1 <= abs <= 10 && |seg.payload| <= 10
    ensures SegmentStart(r, seg) == abs && PayloadIndex(r, seg) == abs - 1
    ensures SegmentEnd(r, seg) == abs + Max(seg.Length(), 1) - 1
    ensures WindowStart(r) == AbsAckno(r) == WindowEnd(r) && r.WindowSize() == 0
  {
    UnwrapNear(abs, r.isn, r.checkpoint);
    WindowEndExact(r);
    NoWrap(abs - 1);
    NoWrap(abs + Max(seg.Length(), 1) - 1);
  }

  /** A bare FIN outside the closed window is counted. */
  lemma OutsideFinIsCounted(r: Receiver, isn: u32) returns (r': Receiver)
    requires Inv(r) && r.synReceived && r.isn == isn && !r.finReceived && !r.reassembler.eof
    requires r.reassembler.first == 1 == r.reassembler.RightEdge() && r.reassembler.pieces == []
    ensures Deliverable(r, FinSegment(5, isn)) && r' == SegmentReceived(r, FinSegment(5, isn))
    ensures Inv(r') && r'.synReceived && r'.isn == isn && r'.reassembler == r.reassembler && FinIsCounted(r')
  {
    var seg := FinSegment(5, isn);
    NextSegment(r, 5, seg);
    SegmentKeeps(r, seg);
    r' := SegmentReceived(r, seg);
  }

  /** Then the one number the window admits lies beyond the right edge. */
  lemma CountedFinLeavesRange(capacity: nat, isn: u32, x: u8, y: u8) returns (r: Receiver, r1: Receiver, r2: Receiver)
    requires capacity == 1
    ensures Deliverable(NewReceiver(capacity), SynSegment(isn))
    ensures r == SegmentReceived(NewReceiver(capacity), SynSegment(isn)) && Deliverable(r, DataSegment(1, isn, [x]))
    ensures r1 == SegmentReceived(r, DataSegment(1, isn, [x])) && Deliverable(r1, FinSegment(5, isn))
    ensures r2 == SegmentReceived(r1, FinSegment(5, isn)) && Inv(r2)
    ensures var seg := DataSegment(3, isn, [y]);
            Inbound(r2, seg) && SegmentStart(r2, seg) == 3 && !Deliverable(r2, seg)
  {
    r, r1 := AfterFirstByte(capacity, isn, x);
    r2 := OutsideFinIsCounted(r1, isn);
    NextSegment(r2, 3, DataSegment(3, isn, [y]));
  }

  /** After a bare FIN ahead of four missing bytes, the acknowledgment number counts the FIN. */
  lemma BareFinIsCounted(r: Receiver, isn: u32) returns (r': Receiver)
    requires Inv(r) && r == NewReceiver(r.reassembler.capacity).(synReceived := true, isn := isn, ackno := Wrap(1, isn))
    requires 5 <= r.reassembler.capacity < TWO64 - 2
    ensures Deliverable(r, FinSegment(5, isn)) && r' == SegmentReceived(r, FinSegment(5, isn))
    ensures Inv(r') && r'.synReceived && r'.finReceived && r'.isn == isn && AbsAckno(r') == 2
    ensures r'.reassembler == r.reassembler.(eof := true, output := r.reassembler.output.EndInput())
  {
    var seg := FinSegment(5, isn);
    EarlySegment(r, 5, seg);
    SegmentKeeps(r, seg);
    r' := SegmentReceived(r, seg);
    assert Push(r.reassembler, [], 4, true) ==
           r.reassembler.(eof := true, output := r.reassembler.output.EndInput());
  }

  /** The last of the four bytes then moves it back. */
  lemma AcknoGoesBack(capacity: nat, isn: u32) returns (r: Receiver, r1: Receiver)
    requires 5 <= capacity < TWO64 - 2
    ensures Deliverable(NewReceiver(capacity), SynSegment(isn))
    ensures r == SegmentReceived(NewReceiver(capacity), SynSegment(isn)) && Deliverable(r, FinSegment(5, isn))
    ensures r1 == SegmentReceived(r, FinSegment(5, isn)) && Deliverable(r1, DataSegment(4, isn, [9]))
    ensures ReopensGap(r1, DataSegment(4, isn, [9]))
    ensures AbsAckno(SegmentReceived(r1, DataSegment(4, isn, [9]))) < AbsAckno(r1)
  {
    r := AfterSyn(capacity, isn);
    r1 := BareFinIsCounted(r, isn);
    EarlySegment(r1, 4, DataSegment(4, isn, [9]));
    AcknoMonotoneIff(r1, DataSegment(4, isn, [9]));
  }
}
