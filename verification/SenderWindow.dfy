/** How far the sender fills the receiver's window. */
module SenderWindow {
  import opened Numbers
  import opened WrappingIntegers
  import opened ByteStreams
  import opened Senders
  import opened SenderLedger

  function InFlight(s: Sender): int {
    s.next - s.recvAckno
  }

  /** One when FIN was set between the two states. */
  function NewFin(s: Sender, s': Sender): nat {
    Count(s'.finSent && !s.finSent)
  }

  /** Nothing is left to send: no buffered byte, and no FIN owed. */
  predicate Drained(s: Sender) {
    s.stream.buffer == [] && (s.stream.ended ==> s.finSent)
  }

  /** The segments logged since `s` carry at most 1452 bytes each. */
  ghost predicate SmallPayloads(s: Sender, s': Sender) {
    && |s.log| <= |s'.log|
    && forall i :: |s.log| <= i < |s'.log| ==> |s'.log[i].seg.payload| <= MAX_PAYLOAD_SIZE
  }

  /** What one slice adds. */
  lemma SliceAdds(s: Sender, size: nat)
    ensures var s' := Sliced(s, size);
            var taken := Min(size, |s.stream.buffer|);
            && InFlight(s') == InFlight(s) + taken + NewFin(s, s')
            && |s'.stream.buffer| == |s.stream.buffer| - taken && s'.stream.ended == s.stream.ended
            && (s'.finSent <==> s.finSent || (s.stream.ended && s'.stream.buffer == []))
            && s'.recvAckno == s.recvAckno
            && (Slice(s, size).1.Length() == 0 <==> taken + NewFin(s, s') == 0)
  {
  }

  lemma SlicePayload(s: Sender, size: nat)
    requires size <= MAX_PAYLOAD_SIZE
    ensures SmallPayloads(s, Sliced(s, size))
  {
    var (s1, seg) := Slice(s, size);
    assert seg.Length() != 0 ==> Sliced(s, size).log == s.log + [Numbered(s1.next, Stamped(s1, seg))];
  }

  lemma {:induction false} FillPayloads(s: Sender, window: nat)
    ensures SmallPayloads(s, FillLoop(s, window))
    decreases |s.stream.buffer|, if s.finSent then 0 else 1
  {
    if !(Room(s, window) == 0 || (s.stream.Eof() && s.finSent)) {
      var size := Min(Room(s, window), MAX_PAYLOAD_SIZE);
      SlicePayload(s, size);
      SlicedFrame(s, size);
      if Slice(s, size).1.Length() != 0 {
        FillPayloads(Sliced(s, size), window);
        FillLoopFrame(Sliced(s, size), window);
        PayloadsTrans(s, Sliced(s, size), FillLoop(s, window));
      }
    }
  }

  lemma PayloadsTrans(s: Sender, s1: Sender, s2: Sender)
    requires SmallPayloads(s, s1) && SmallPayloads(s1, s2) && s1.log <= s2.log
    ensures SmallPayloads(s, s2)
  {
    forall i | |s.log| <= i < |s2.log| ensures |s2.log[i].seg.payload| <= MAX_PAYLOAD_SIZE {
      if i < |s1.log| {
        assert s2.log[i] == s1.log[i];
      }
    }
  }

  /** Starting within the window, filling stays within it, but for a FIN, and stops only when full or drained. */
  lemma {:induction false} FillLoopBound(s: Sender, window: nat)
    requires 0 <= InFlight(s) <= window < TWO64
    ensures var s' := FillLoop(s, window);
            && InFlight(s') <= window + NewFin(s, s')
            && (InFlight(s') >= window || Drained(s'))
    decreases |s.stream.buffer|, if s.finSent then 0 else 1
  {
    assert Room(s, window) == window - InFlight(s);
    if !(Room(s, window) == 0 || (s.stream.Eof() && s.finSent)) {
      var size := Min(Room(s, window), MAX_PAYLOAD_SIZE);
      var s1 := Sliced(s, size);
      SliceAdds(s, size);
      if Slice(s, size).1.Length() != 0 {
        if NewFin(s, s1) == 0 {
          FillLoopBound(s1, window);
        } else {
          assert FillLoop(s1, window) == s1;
        }
      }
    }
  }

  /** Starting beyond the window, the unsigned difference wraps around and the whole buffer is sent. */
  lemma {:induction false} FillLoopOverrun(s: Sender, window: nat)
    requires window < InFlight(s) && InFlight(s) + |s.stream.buffer| < TWO64
    ensures var s' := FillLoop(s, window);
            && InFlight(s') == InFlight(s) + |s.stream.buffer| + NewFin(s, s')
            && Drained(s')
    decreases |s.stream.buffer|, if s.finSent then 0 else 1
  {
    assert Room(s, window) == window - InFlight(s) + TWO64;
    if !(s.stream.Eof() && s.finSent) {
      var size := Min(Room(s, window), MAX_PAYLOAD_SIZE);
      var s1 := Sliced(s, size);
      SliceAdds(s, size);
      if Slice(s, size).1.Length() != 0 {
        if NewFin(s, s1) == 0 {
          FillLoopOverrun(s1, window);
        } else {
          assert FillLoop(s1, window) == s1;
        }
      }
    }
  }

  /** Filling sends nothing beyond the window, or beyond what was in flight already. */
  predicate WindowRespected(s: Sender, s': Sender) {
    InFlight(s') <= Max(InFlight(s), EffectiveWindow(s)) + NewFin(s, s')
  }

  /** After the handshake the window is respected exactly when it was not already exceeded, or nothing is buffered. */
  lemma FillRespectsWindowIff(s: Sender)
    requires s.synSent && s.synAcked && InFlight(s) >= 0 && InFlight(s) + |s.stream.buffer| < TWO64
    ensures WindowRespected(s, FillWindow(s)) <==> InFlight(s) <= EffectiveWindow(s) || s.stream.buffer == []
    ensures InFlight(s) <= EffectiveWindow(s) ==>
              InFlight(FillWindow(s)) >= EffectiveWindow(s) || Drained(FillWindow(s))
    ensures SmallPayloads(s, FillWindow(s))
  {
    var w := EffectiveWindow(s);
    FillPayloads(s, w);
    if InFlight(s) <= w {
      FillLoopBound(s, w);
    } else {
      FillLoopOverrun(s, w);
    }
  }

  // ---------- a shrunk window ----------

  /** What the run below goes through: SYN acknowledged, FIN not sent, `sent` bytes sent of `written`. */
  ghost predicate Progress(s: Sender, sent: nat, written: nat) {
    && Inv(s) && s.recvAckno == 1 && !s.stream.ended && s.stream.capacity >= 3
    && |s.stream.History()| == written && s.stream.BytesRead() == sent && s.next == 1 + sent
  }

  lemma UnwrapOne(isn: u32, checkpoint: nat)
    requires 1 <= checkpoint < TWO31
    ensures Unwrap(Wrap(1, isn), isn, checkpoint) == 1
  {
    UnwrapNear(1, isn, checkpoint);
  }

  lemma SynIsSent(s: Sender, s1: Sender, capacity: nat, timeout: u16, isn: u32)
    requires s == NewSender(capacity, timeout, isn) && s1 == FillWindow(s)
    ensures Small(s) && Inv(s1) && s1.next == 1 && s1.recvAckno == 0 && s1.stream == NewStream(capacity)
    ensures s1.isn == isn
  {
    NewSenderInv(capacity, timeout, isn);
    FillKeeps(s);
    FirstFill(s);
  }

  lemma SynIsAcknowledged(s: Sender, s1: Sender)
    requires Inv(s) && s.next == 1 && s.recvAckno == 0 && s.stream == NewStream(s.stream.capacity)
    requires s1 == AckReceived(s, Wrap(1, s.isn), 10) && s.stream.capacity >= 3
    ensures Progress(s1, 0, 0) && s1.window == 10
  {
    UnwrapOne(s.isn, 1);
    AckKeeps(s, Wrap(1, s.isn), 10);
    AckFrame(s, Wrap(1, s.isn), 10);
    SynBoundary(s, s1.recvAckno);
  }

  lemma SynBoundary(s: Sender, ackno: nat)
    requires Inv(s) && s.next == 1 && s.recvAckno == 0 && Covers(s, 1, ackno)
    ensures ackno == 1
  {
    ContiguousOrder(s.outstanding, 0, 1, SourceOf(s));
    assert Boundary(s.outstanding[1..], 1, 1);
    assert Boundary(s.outstanding, 0, 1);
  }

  lemma TwoBytesAreSent(s: Sender, s1: Sender, s2: Sender)
    requires Progress(s, 0, 0) && s.window == 10 && s1 == Write(s, [5, 6]) && s2 == FillWindow(s1)
    ensures Progress(s1, 0, 2) && Progress(s2, 2, 2)
  {
    WriteKeeps(s, [5, 6]);
    assert s1.stream.buffer == [5, 6];
    FillKeeps(s1);
    FillWindowFrame(s1);
    FillLoopBound(s1, 10);
  }

  lemma ThirdByteIsWritten(s: Sender, s1: Sender, s2: Sender)
    requires Progress(s, 2, 2) && s1 == AckReceived(s, Wrap(1, s.isn), 1) && s2 == Write(s1, [7])
    ensures Progress(s1, 2, 2) && Progress(s2, 2, 3) && s2.window == 1
  {
    UnwrapOne(s.isn, 3);
    AckKeeps(s, Wrap(1, s.isn), 1);
    WriteKeeps(s1, [7]);
    assert s2.stream.buffer == [7];
  }

  /** The handshake, and two bytes in flight. */
  lemma TwoInFlight(capacity: nat, timeout: u16, isn: u32) returns (states: seq<Sender>, calls: seq<Call>)
    requires capacity >= 3
    ensures IsRun(states, calls, capacity, timeout, isn) && Progress(states[|calls|], 2, 2)
  {
    states, calls := [NewSender(capacity, timeout, isn)], [];
    SynIsSent(states[0], FillWindow(states[0]), capacity, timeout, isn);
    states, calls := RunSnoc(states, calls, FillCall, capacity, timeout, isn);
    var s := states[|calls|];
    SynIsAcknowledged(s, AckReceived(s, Wrap(1, s.isn), 10));
    states, calls := RunSnoc(states, calls, AckCall(Wrap(1, s.isn), 10), capacity, timeout, isn);
    s := states[|calls|];
    TwoBytesAreSent(s, Write(s, [5, 6]), FillWindow(Write(s, [5, 6])));
    states, calls := RunSnoc(states, calls, WriteCall([5, 6]), capacity, timeout, isn);
    states, calls := RunSnoc(states, calls, FillCall, capacity, timeout, isn);
  }

  /** Then the peer shrinks its window to one, and a third byte is written. */
  lemma ShrunkWindow(capacity: nat, timeout: u16, isn: u32) returns (states: seq<Sender>, calls: seq<Call>)
    requires capacity >= 3
    ensures IsRun(states, calls, capacity, timeout, isn)
    ensures Progress(states[|calls|], 2, 3) && states[|calls|].window == 1
  {
    states, calls := TwoInFlight(capacity, timeout, isn);
    var s := states[|calls|];
    ThirdByteIsWritten(s, AckReceived(s, Wrap(1, s.isn), 1), Write(AckReceived(s, Wrap(1, s.isn), 1), [7]));
    states, calls := RunSnoc(states, calls, AckCall(Wrap(1, s.isn), 1), capacity, timeout, isn);
    states, calls := RunSnoc(states, calls, WriteCall([7]), capacity, timeout, isn);
  }

  /** The documented promise, to send only what fits the window, fails in that run: the third byte is sent. */
  lemma ShrunkWindowIsOverrun(capacity: nat, timeout: u16, isn: u32) returns (states: seq<Sender>, calls: seq<Call>)
    requires capacity >= 3
    ensures IsRun(states, calls, capacity, timeout, isn)
    ensures var s := states[|calls|];
            && InFlight(s) == 2 && s.window == 1 && InFlight(FillWindow(s)) == 3
            && !WindowRespected(s, FillWindow(s))
  {
    states, calls := ShrunkWindow(capacity, timeout, isn);
    var s := states[|calls|];
    FillRespectsWindowIff(s);
    FillLoopOverrun(s, 1);
    FillKeeps(s);
    FillWindowFrame(s);
  }
}
