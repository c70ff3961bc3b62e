/** The TCP receiver: it unwraps sequence numbers, checks the window and feeds the reassembler. */
module Receivers {
  import opened Numbers
  import opened Buffers
  import opened WrappingIntegers
  import opened ByteStreams
  import opened TcpSegments
  import opened Reassembly

  datatype Receiver = Receiver(
    reassembler: Reassembler, synReceived: bool, finReceived: bool, isn: u32, ackno: u32, checkpoint: nat)
  {
    function Output(): Stream {
      reassembler.output
    }

    /** The acknowledgment number to send, once a SYN has arrived. */
    function Ackno(): Option<u32> {
      if synReceived then Some(ackno) else None
    }

    function WindowSize(): nat
      requires reassembler.output.Bounded()
    {
      reassembler.output.RemainingCapacity()
    }
  }

  function NewReceiver(capacity: nat): Receiver {
    Receiver(NewReassembler(capacity), false, false, 0, 0, 0)
  }

  // ---------- operations ----------

  /** Segments without effect: before the SYN, a second SYN, a FIN after the end was announced. */
  predicate Ignores(r: Receiver, seg: Segment) {
    || (!seg.header.syn && !r.synReceived)
    || (r.reassembler.eof && seg.header.fin)
    || (seg.header.syn && r.synReceived)
  }

  /** The first SYN fixes the initial sequence number. */
  function Open(r: Receiver, seg: Segment): Receiver {
    if seg.header.syn then r.(isn := seg.header.seqno, synReceived := true) else r
  }

  function WindowStart(r: Receiver): nat {
    Unwrap(r.ackno, r.isn, r.checkpoint)
  }

  function WindowEnd(r: Receiver): nat
    requires r.reassembler.output.Bounded()
  {
    (WindowStart(r) + Max(r.WindowSize(), 1) - 1) % TWO64
  }

  function SegmentStart(r: Receiver, seg: Segment): nat {
    Unwrap(seg.header.seqno, r.isn, r.checkpoint)
  }

  function SegmentEnd(r: Receiver, seg: Segment): nat {
    (SegmentStart(r, seg) + Max(seg.Length(), 1) - 1) % TWO64
  }

  /** The window test: the first or the last sequence number of the segment lies in the window. */
  predicate Inbound(r: Receiver, seg: Segment)
    requires r.reassembler.output.Bounded()
  {
    || WindowStart(r) <= SegmentStart(r, seg) <= WindowEnd(r)
    || WindowStart(r) <= SegmentEnd(r, seg) <= WindowEnd(r)
  }

  /** The stream index of the payload: SYN has none, so it wraps below zero at the start. */
  function PayloadIndex(r: Receiver, seg: Segment): nat {
    (SegmentStart(r, seg) - 1) % TWO64
  }

  /** What the reassembler demands of a segment that passes the window test. */
  predicate Deliverable(r: Receiver, seg: Segment) {
    && r.reassembler.output.Bounded() && r.reassembler.capacity == r.reassembler.output.capacity
    && (!Ignores(r, seg) && Inbound(Open(r, seg), seg) ==>
          Pushable(r.reassembler, seg.payload, PayloadIndex(Open(r, seg), seg)))
  }

  function PushPayload(r: Receiver, seg: Segment): (r': Receiver)
    requires r.reassembler.output.Bounded()
    requires Inbound(r, seg) ==> Pushable(r.reassembler, seg.payload, PayloadIndex(r, seg))
    ensures r'.reassembler.output.Bounded()
  {
    if Inbound(r, seg) then
      var reassembler := Push(r.reassembler, seg.payload, PayloadIndex(r, seg), seg.header.fin);
      r.(reassembler := reassembler, checkpoint := reassembler.first)
    else r
  }

  /** The first FIN; one that comes with SYN and nothing else ends the stream at once. */
  function NoteFin(r: Receiver, seg: Segment): Receiver {
    if seg.header.fin && !r.finReceived then
      if seg.header.syn && seg.Length() == 2 then
        r.(finReceived := true, reassembler := r.reassembler.(output := r.reassembler.output.EndInput()))
      else r.(finReceived := true)
    else r
  }

  /** The absolute acknowledgment number: SYN, the bytes assembled, and FIN once nothing is left to assemble. */
  function AbsAckno(r: Receiver): nat {
    r.reassembler.first + 1 + (if r.finReceived && r.reassembler.Empty() then 1 else 0)
  }

  function UpdateAckno(r: Receiver): Receiver {
    r.(ackno := Wrap(AbsAckno(r), r.isn))
  }

  function SegmentReceived(r: Receiver, seg: Segment): (r': Receiver)
    requires Deliverable(r, seg)
    ensures r'.reassembler.output.Bounded()
  {
    if Ignores(r, seg) then r
    else UpdateAckno(NoteFin(PushPayload(Open(r, seg), seg), seg))
  }

  /** The result reported for a segment. */
  predicate Accepts(r: Receiver, seg: Segment)
    requires r.reassembler.output.Bounded()
  {
    && !Ignores(r, seg)
    && (Inbound(Open(r, seg), seg) || (seg.header.fin && !r.finReceived) || seg.header.syn)
  }

  function ReadOutput(r: Receiver, n: nat): Receiver {
    r.(reassembler := Read(r.reassembler, n))
  }

  // ---------- the imperative receiver ----------

  class TCPReceiver {
    const reassembler: StreamReassembler
    var synReceived: bool
    var finReceived: bool
    var isn: u32
    var ackno: u32
    var checkpoint: nat

    ghost predicate Valid()
      reads this, reassembler, reassembler.output, reassembler.output.buffer
    {
      reassembler.Valid()
    }

    ghost function View(): Receiver
      reads this, reassembler, reassembler.output, reassembler.output.buffer
    {
      Receiver(reassembler.View(), synReceived, finReceived, isn, ackno, checkpoint)
    }

    constructor (capacity: nat)
      ensures Valid() && fresh(reassembler) && fresh(reassembler.output) && fresh(reassembler.output.buffer)
      ensures View() == NewReceiver(capacity)
    {
      reassembler := new StreamReassembler(capacity);
      synReceived, finReceived, isn, ackno, checkpoint := false, false, 0, 0, 0;
    }

    function WindowSize(): (n: nat)
      requires Valid()
      reads this, reassembler, reassembler.output, reassembler.output.buffer
      ensures n == View().WindowSize()
    {
      reassembler.output.RemainingCapacity()
    }

    function CurrentAckno(): (a: Option<u32>)
      reads this, reassembler, reassembler.output, reassembler.output.buffer
      ensures a == View().Ackno()
    {
      if synReceived then Some(ackno) else None
    }

    method InWindow(seg: Segment) returns (inbound: bool)
      requires Valid()
      ensures inbound == Inbound(View(), seg)
    {
      var winStart := Unwrap(ackno, isn, checkpoint);
      var winSize := if WindowSize() != 0 then WindowSize() else 1;
      var winEnd := (winStart + winSize - 1) % TWO64;
      var start := Unwrap(seg.header.seqno, isn, checkpoint);
      var size := if seg.Length() != 0 then seg.Length() else 1;
      var end := (start + size - 1) % TWO64;
      inbound := (start >= winStart && start <= winEnd) || (end >= winStart && end <= winEnd);
      assert winEnd == WindowEnd(View()) && end == SegmentEnd(View(), seg);
    }

    /** The window test and the push. */
    method PushInbound(seg: Segment) returns (inbound: bool)
      requires Valid()
      requires Inbound(View(), seg) ==> Pushable(View().reassembler, seg.payload, PayloadIndex(View(), seg))
      modifies this, reassembler, reassembler.output, reassembler.output.buffer
      ensures Valid() && View() == PushPayload(old(View()), seg) && inbound == Inbound(old(View()), seg)
    {
      inbound := InWindow(seg);
      if inbound {
        var start := Unwrap(seg.header.seqno, isn, checkpoint);
        var index := (start - 1) % TWO64;
        assert index == PayloadIndex(View(), seg);
        reassembler.PushSubstring(seg.payload, index, seg.header.fin);
        checkpoint := reassembler.first;
      }
    }

    method FinishSegment(seg: Segment)
      requires Valid()
      modifies this, reassembler.output
      ensures Valid() && View() == UpdateAckno(NoteFin(old(View()), seg))
    {
      if seg.header.fin && !finReceived {
        finReceived := true;
        if seg.header.syn && seg.Length() == 2 {
          reassembler.output.EndInput();
        }
      }
      ackno := Wrap(reassembler.first + 1 + (if finReceived && reassembler.count == 0 then 1 else 0), isn);
    }

    method SegmentArrives(seg: Segment) returns (ok: bool)
      requires Valid() && Deliverable(View(), seg)
      modifies this, reassembler, reassembler.output, reassembler.output.buffer
      ensures Valid() && View() == SegmentReceived(old(View()), seg)
      ensures ok == Accepts(old(View()), seg)
    {
      var oldSyn, oldFin := synReceived, finReceived;
      if !seg.header.syn && !synReceived {
        return false;
      }
      if reassembler.eof && seg.header.fin {
        return false;
      }
      if seg.header.syn {
        if synReceived {
          return false;
        }
        isn := seg.header.seqno;
        synReceived := true;
      }
      var inbound := PushInbound(seg);
      FinishSegment(seg);
      ok := inbound || (seg.header.fin && !oldFin) || (seg.header.syn && !oldSyn);
    }
  }
}
