/**
 The TCP sender: it slices a byte stream into numbered segments, keeps the
 unacknowledged ones, and retransmits on a doubling timer.
 */
module Senders {
  import opened Numbers
  import opened WrappingIntegers
  import opened ByteStreams
  import opened TcpSegments

  const MAX_PAYLOAD_SIZE: nat := 1452

  /** A segment handed to the outside, with the absolute number of its first sequence number. */
  datatype Numbered = Numbered(at: nat, seg: Segment)

  /** `log` records every segment ever queued for sending, in order. */
  datatype Sender = Sender(
    isn: u32, segmentsOut: seq<Segment>, log: seq<Numbered>, outstanding: seq<Segment>, bytesInFlight: int,
    recvAckno: nat, window: u16, stream: Stream, next: nat,
    synSent: bool, synAcked: bool, finSent: bool,
    initialTimeout: nat, retransmissions: nat, running: bool, time: nat, timeout: nat)

  function NewSender(capacity: nat, timeout: u16, isn: u32): Sender {
    Sender(isn, [], [], [], 0, 0, 1, NewStream(capacity), 0, false, false, false, timeout, 0, false, 0, timeout)
  }

  // ---------- operations ----------

  /** Queues a segment for sending. */
  function Emit(s: Sender, at: nat, seg: Segment): Sender {
    s.(segmentsOut := s.segmentsOut + [seg], log := s.log + [Numbered(at, seg)])
  }

  function Stamped(s: Sender, seg: Segment): Segment {
    seg.(header := seg.header.(seqno := Wrap(s.next, s.isn)))
  }

  /** Numbers a segment, sends it and keeps it as outstanding. */
  function SendNew(s: Sender, seg: Segment): Sender {
    Emit(s, s.next, Stamped(s, seg)).(
      next := s.next + seg.Length(),
      bytesInFlight := s.bytesInFlight + seg.Length(),
      outstanding := s.outstanding + [Stamped(s, seg)])
  }

  function SendEmpty(s: Sender): Sender {
    Emit(s, s.next, Stamped(s, EMPTY_SEGMENT))
  }

  function DataSegment(payload: bytes, fin: bool): Segment {
    Segment(PLAIN_HEADER.(fin := fin), payload)
  }

  const SYN_SEGMENT: Segment := Segment(PLAIN_HEADER.(syn := true), [])

  /** The window left, as an unsigned 64-bit difference. */
  function Room(s: Sender, window: nat): (room: nat) {
    Unsigned(window - (s.next - s.recvAckno))
  }

  function Unsigned(difference: int): (r: nat) {
    difference % TWO64
  }

  /** The next slice of the stream, with FIN when the stream ends with it. */
  function Slice(s: Sender, size: nat): (Sender, Segment) {
    var payload := s.stream.Peek(size);
    var stream := s.stream.Pop(size);
    var fin := stream.Eof() && !s.finSent;
    (s.(stream := stream, finSent := s.finSent || fin), DataSegment(payload, fin))
  }

  /** Sends the next slice, unless it is empty. */
  function Sliced(s: Sender, size: nat): (s': Sender) {
    var (s1, seg) := Slice(s, size);
    if seg.Length() == 0 then s1 else SendNew(s1, seg).(running := true)
  }

  function FillLoop(s: Sender, window: nat): (s': Sender)
    decreases |s.stream.buffer|, if s.finSent then 0 else 1
  {
    if Room(s, window) == 0 || (s.stream.Eof() && s.finSent) then s
    else
      var size := Min(Room(s, window), MAX_PAYLOAD_SIZE);
      if Slice(s, size).1.Length() == 0 then Sliced(s, size) else FillLoop(Sliced(s, size), window)
  }

  /** Filling from `s` comes to the same as filling from `s'`. */
  ghost predicate Reaches(s: Sender, s': Sender, window: nat) {
    FillLoop(s, window) == FillLoop(s', window)
  }

  lemma FillReaches(s: Sender, s': Sender, window: nat)
    requires s' == s
    ensures Reaches(s, s', window)
  {
  }

  lemma FillStops(s: Sender, s': Sender, window: nat)
    requires Reaches(s, s', window) && (Room(s', window) == 0 || (s'.stream.Eof() && s'.finSent))
    ensures s' == FillLoop(s, window)
  {
  }

  /** One round: nothing was left to send, or filling goes on with less. */
  lemma RoundReaches(s: Sender, s1: Sender, s2: Sender, window: nat, size: nat)
    requires Reaches(s, s1, window) && Room(s1, window) > 0 && !(s1.stream.Eof() && s1.finSent)
    requires size == Min(Room(s1, window), MAX_PAYLOAD_SIZE) && s2 == Sliced(s1, size)
    ensures Slice(s1, size).1.Length() == 0 ==> s2 == FillLoop(s, window)
    ensures Slice(s1, size).1.Length() != 0 ==>
              && Reaches(s, s2, window)
              && (|s2.stream.buffer| < |s1.stream.buffer|
                  || (|s2.stream.buffer| == |s1.stream.buffer| && s2.finSent && !s1.finSent))
  {
  }

  /** A zero window is treated as a window of one. */
  function EffectiveWindow(s: Sender): (w: nat) {
    if s.window == 0 then 1 else s.window
  }

  function FillWindow(s: Sender): (s': Sender) {
    if !s.synSent then SendNew(s, SYN_SEGMENT).(synSent := true, running := true)
    else if !s.synAcked then s
    else FillLoop(s, EffectiveWindow(s))
  }

  /** Drops the outstanding segments that end at or before `abs`. */
  function DropAcked(s: Sender, abs: nat): (s': Sender)
    decreases |s.outstanding|
  {
    if s.outstanding == [] then s
    else
      var seg := s.outstanding[0];
      var end := Unwrap(seg.header.seqno, s.isn, s.next) + seg.Length();
      if end <= abs then
        DropAcked(s.(outstanding := s.outstanding[1..], bytesInFlight := s.bytesInFlight - seg.Length(),
                     recvAckno := end), abs)
      else s
  }

  function RestartTimer(s: Sender): Sender {
    s.(time := 0, retransmissions := 0, timeout := s.initialTimeout,
       running := s.running && s.outstanding != [])
  }

  /** Whether an acknowledgment number is not beyond what was sent. */
  predicate AckAcceptable(s: Sender, ackno: u32) {
    Unwrap(ackno, s.isn, s.next) <= s.next
  }

  function AckReceived(s: Sender, ackno: u32, window: u16): (s': Sender) {
    var abs := Unwrap(ackno, s.isn, s.next);
    if abs > s.next then s
    else if abs <= s.recvAckno then s.(window := window)
    else RestartTimer(FillWindow(DropAcked(s.(window := window).(synAcked := true), abs)))
  }

  /** Whether a tick of `ms` makes the timer expire. */
  predicate Expires(s: Sender, ms: nat) {
    s.running && s.time + ms >= s.timeout
  }

  function Tick(s: Sender, ms: nat): (s': Sender) {
    if !s.running then s
    else if s.time + ms < s.timeout then s.(time := s.time + ms)
    else Expire(s.(time := s.time + ms))
  }

  /** Doubling in 64 bits. */
  function Doubled(timeout: nat): (r: nat) {
    (timeout * 2) % TWO64
  }

  function BackOff(s: Sender): Sender {
    s.(time := 0, retransmissions := s.retransmissions + 1, timeout := Doubled(s.timeout))
  }

  /** Doubles the timeout, restarts the timer and sends the oldest outstanding segment again. */
  function Expire(s: Sender): (s': Sender) {
    var s1 := BackOff(s);
    if s.outstanding != [] then Emit(s1, s.recvAckno, s.outstanding[0]) else s1.(running := false)
  }

  function Write(s: Sender, data: bytes): Sender
    requires s.stream.Bounded()
  {
    s.(stream := s.stream.Write(data))
  }

  function EndInput(s: Sender): Sender {
    s.(stream := s.stream.EndInput())
  }

  // ---------- the imperative sender ----------

  class TCPSender {
    const isn: u32
    const stream: ByteStream
    const initialTimeout: nat
    var segmentsOut: seq<Segment>
    ghost var log: seq<Numbered>
    var outstanding: seq<Segment>
    var bytesInFlight: int
    var recvAckno: nat
    var window: u16
    var next: nat
    var synSent: bool
    var synAcked: bool
    var finSent: bool
    var retransmissions: nat
    var running: bool
    var time: nat
    var timeout: nat

    ghost predicate Valid()
      reads this, stream, stream.buffer
    {
      stream.Valid()
    }

    ghost function View(): Sender
      reads this, stream, stream.buffer
    {
      Sender(isn, segmentsOut, log, outstanding, bytesInFlight, recvAckno, window, stream.View(), next,
             synSent, synAcked, finSent, initialTimeout, retransmissions, running, time, timeout)
    }

    constructor (capacity: nat, retxTimeout: u16, isn: u32)
      ensures Valid() && fresh(stream) && fresh(stream.buffer)
      ensures View() == NewSender(capacity, retxTimeout, isn)
    {
      this.isn := isn;
      stream := new ByteStream(capacity);
      initialTimeout := retxTimeout;
      segmentsOut, log, outstanding := [], [], [];
      bytesInFlight, recvAckno, window, next := 0, 0, 1, 0;
      synSent, synAcked, finSent, running := false, false, false, false;
      retransmissions, time, timeout := 0, 0, retxTimeout;
    }

    method Queue(ghost at: nat, seg: Segment)
      requires Valid()
      modifies this`segmentsOut, this`log
      ensures Valid() && View() == Emit(old(View()), at, seg)
    {
      log := log + [Numbered(at, seg)];
      segmentsOut := segmentsOut + [seg];
    }

    method MakeSegmentAndSend(seg: Segment)
      requires Valid()
      modifies this
      ensures Valid() && View() == SendNew(old(View()), seg)
    {
      var numbered := seg.(header := seg.header.(seqno := Wrap(next, isn)));
      Queue(next, numbered);
      next := next + seg.Length();
      bytesInFlight := bytesInFlight + seg.Length();
      outstanding := outstanding + [numbered];
    }

    method SendEmptySegment()
      requires Valid()
      modifies this`segmentsOut, this`log
      ensures Valid() && View() == SendEmpty(old(View()))
    {
      var seg := EMPTY_SEGMENT.(header := EMPTY_SEGMENT.header.(seqno := Wrap(next, isn)));
      Queue(next, seg);
    }

    method CutSegment(size: nat) returns (seg: Segment)
      requires Valid()
      modifies this`finSent, stream, stream.buffer
      ensures Valid() && (View(), seg) == Slice(old(View()), size)
    {
      var payload := stream.Read(size);
      var fin := false;
      if stream.Eof() && !finSent {
        fin := true;
        finSent := true;
      }
      seg := DataSegment(payload, fin);
    }

    /** One round of the loop: sends a slice, unless it would be empty. */
    method SendSlice(size: nat) returns (sent: bool)
      requires Valid()
      modifies this, stream, stream.buffer
      ensures Valid() && sent == (Slice(old(View()), size).1.Length() != 0)
      ensures View() == Sliced(old(View()), size)
    {
      var seg := CutSegment(size);
      if seg.Length() == 0 {
        return false;
      }
      MakeSegmentAndSend(seg);
      running := true;
      return true;
    }

    method FillOpenWindow(window: nat)
      requires Valid()
      modifies this, stream, stream.buffer
      ensures Valid() && View() == FillLoop(old(View()), window)
    {
      ghost var start := View();
      FillReaches(start, start, window);
      while Unsigned(window - (next - recvAckno)) > 0
        invariant Valid() && Reaches(start, View(), window)
        decreases |stream.View().buffer|, if finSent then 0 else 1
      {
        if stream.Eof() && finSent {
          break;
        }
        ghost var was := View();
        var size := Min(Unsigned(window - (next - recvAckno)), MAX_PAYLOAD_SIZE);
        var sent := SendSlice(size);
        RoundReaches(start, was, View(), window, size);
        if !sent {
          return;
        }
      }
      FillStops(start, View(), window);
    }

    method FillTheWindow()
      requires Valid()
      modifies this, stream, stream.buffer
      ensures Valid() && View() == FillWindow(old(View()))
    {
      if !synSent {
        MakeSegmentAndSend(SYN_SEGMENT);
        synSent := true;
        running := true;
        return;
      }
      if !synAcked {
        return;
      }
      FillOpenWindow(if window == 0 then 1 else window);
    }

    method DropAcknowledged(abs: nat)
      requires Valid()
      modifies this`outstanding, this`bytesInFlight, this`recvAckno
      ensures Valid() && View() == DropAcked(old(View()), abs)
    {
      ghost var goal := DropAcked(View(), abs);
      while outstanding != []
        invariant Valid() && DropAcked(View(), abs) == goal
        decreases |outstanding|
      {
        var seg := outstanding[0];
        var start := Unwrap(seg.header.seqno, isn, next);
        if start + seg.Length() > abs {
          break;
        }
        outstanding := outstanding[1..];
        bytesInFlight := bytesInFlight - seg.Length();
        recvAckno := start + seg.Length();
      }
    }

    method Acknowledge(ackno: u32, window: u16) returns (ok: bool)
      requires Valid()
      modifies this, stream, stream.buffer
      ensures Valid() && View() == AckReceived(old(View()), ackno, window)
      ensures ok == AckAcceptable(old(View()), ackno)
    {
      var abs := Unwrap(ackno, isn, next);
      if abs > next {
        return false;
      }
      this.window := window;
      if abs <= recvAckno {
        return true;
      }
      Advance(abs);
      return true;
    }

    /** What a new acknowledgment does: drop, send more, restart the timer. */
    method Advance(abs: nat)
      requires Valid()
      modifies this, stream, stream.buffer
      ensures Valid() && View() == RestartTimer(FillWindow(DropAcked(old(View()).(synAcked := true), abs)))
    {
      synAcked := true;
      DropAcknowledged(abs);
      FillTheWindow();
      ResetTimer();
    }

    method ResetTimer()
      requires Valid()
      modifies this
      ensures Valid() && View() == RestartTimer(old(View()))
    {
      time := 0;
      retransmissions := 0;
      timeout := initialTimeout;
      if outstanding == [] {
        running := false;
      }
    }

    method PassTime(ms: nat)
      requires Valid()
      modifies this
      ensures Valid() && View() == Tick(old(View()), ms)
    {
      if !running {
        return;
      }
      time := time + ms;
      if time >= timeout {
        HandleExpiry();
      }
    }

    method HandleExpiry()
      requires Valid()
      modifies this
      ensures Valid() && View() == Expire(old(View()))
    {
      DoubleTimeout();
      if outstanding != [] {
        Queue(recvAckno, outstanding[0]);
      } else {
        running := false;
      }
    }

    method DoubleTimeout()
      requires Valid()
      modifies this`retransmissions, this`timeout, this`time
      ensures Valid() && View() == BackOff(old(View()))
    {
      retransmissions := retransmissions + 1;
      timeout := Doubled(timeout);
      time := 0;
    }
  }
}
