/** What every operation of the sender keeps: its ledger of sequence numbers, and its timer. */
module SenderLedger {
  import opened Numbers
  import opened WrappingIntegers
  import opened TcpSegments
  import opened Senders

  /** The stream that a sender transmits: all bytes accepted so far, and whether that is all. */
  datatype Source = Source(isn: u32, history: bytes, ended: bool)

  function SourceOf(s: Sender): Source {
    Source(s.isn, s.stream.History(), s.stream.ended)
  }

  /**
   Segment `n.seg` is what the sender has at absolute number `n.at`: the SYN at
   zero, and the stream's bytes from `n.at - 1` after it, with FIN only at the
   end of an ended stream.
   */
  ghost predicate Genuine(n: Numbered, src: Source) {
    var seg := n.seg;
    && seg.header == PLAIN_HEADER.(seqno := Wrap(n.at, src.isn), syn := seg.header.syn, fin := seg.header.fin)
    && (seg.header.syn ==> n.at == 0 && seg.payload == [] && !seg.header.fin)
    && (!seg.header.syn && seg.Length() > 0 ==>
          && 1 <= n.at && n.at - 1 + |seg.payload| <= |src.history|
          && seg.payload == src.history[n.at - 1..n.at - 1 + |seg.payload|]
          && (seg.header.fin ==> src.ended && n.at - 1 + |seg.payload| == |src.history|))
  }

  /** The segments cover the sequence numbers from `from` up to `to` without gap or overlap. */
  ghost predicate Contiguous(segs: seq<Segment>, from: nat, to: nat, src: Source)
    decreases |segs|
  {
    if segs == [] then from == to
    else
      && segs[0].Length() > 0 && Genuine(Numbered(from, segs[0]), src)
      && Contiguous(segs[1..], from + segs[0].Length(), to, src)
  }

  function Count(b: bool): nat {
    if b then 1 else 0
  }

  /** The ledger of the sender. */
  ghost predicate Ledger(s: Sender) {
    && s.stream.Bounded()
    && s.recvAckno <= s.next
    && s.bytesInFlight == s.next - s.recvAckno
    && Contiguous(s.outstanding, s.recvAckno, s.next, SourceOf(s))
    && s.next == Count(s.synSent) + s.stream.BytesRead() + Count(s.finSent)
    && (s.recvAckno == 0 ==> s.next <= 1)
    && (s.finSent ==> s.synSent && s.stream.Eof())
    && (!s.synSent ==> s.next == 0)
  }

  /** Every segment ever sent is genuine and lies below `next`. */
  ghost predicate LogGenuine(s: Sender) {
    AllGenuine(s.log, s.next, SourceOf(s))
  }

  ghost predicate AllGenuine(log: seq<Numbered>, limit: nat, src: Source) {
    forall n :: n in log ==> Genuine(n, src) && n.at + n.seg.Length() <= limit
  }

  ghost predicate SynState(s: Sender) {
    s.synAcked <==> s.recvAckno >= 1
  }

  ghost predicate Timer(s: Sender) {
    && (s.running <==> s.outstanding != [])
    && (!s.running ==> s.time == 0 && s.retransmissions == 0)
    && s.timeout == (s.initialTimeout * Pow2(s.retransmissions)) % TWO64
    && s.initialTimeout < TWO16
  }

  ghost predicate Inv(s: Sender) {
    Ledger(s) && LogGenuine(s) && SynState(s) && Timer(s)
  }

  /** Numbers that 32-bit arithmetic can tell apart: less than 2^31 in flight. */
  predicate Small(s: Sender) {
    s.next < TWO64 && s.next - s.recvAckno < TWO31
  }

  // ---------- segments ----------

  /** What was genuine stays genuine while the stream grows, because FIN ends it. */
  ghost predicate Grows(src: Source, src': Source) {
    && src'.isn == src.isn && src.history <= src'.history
    && (src.ended ==> src'.ended && src'.history == src.history)
  }

  lemma GenuineGrows(n: Numbered, src: Source, src': Source)
    requires Genuine(n, src) && Grows(src, src')
    ensures Genuine(n, src')
  {
    var k := |n.seg.payload|;
    if !n.seg.header.syn && n.seg.Length() > 0 {
      assert src'.history[n.at - 1..n.at - 1 + k] == src.history[n.at - 1..n.at - 1 + k];
    }
  }

  lemma {:induction false} ContiguousGrows(segs: seq<Segment>, from: nat, to: nat, src: Source, src': Source)
    requires Contiguous(segs, from, to, src) && Grows(src, src')
    ensures Contiguous(segs, from, to, src')
    decreases |segs|
  {
    if segs != [] {
      GenuineGrows(Numbered(from, segs[0]), src, src');
      ContiguousGrows(segs[1..], from + segs[0].Length(), to, src, src');
    }
  }

  lemma {:induction false} ContiguousSnoc(segs: seq<Segment>, from: nat, to: nat, seg: Segment, src: Source)
    requires Contiguous(segs, from, to, src) && seg.Length() > 0 && Genuine(Numbered(to, seg), src)
    ensures Contiguous(segs + [seg], from, to + seg.Length(), src)
    decreases |segs|
  {
    if segs == [] {
      assert segs + [seg] == [seg];
      assert [seg][1..] == [];
    } else {
      ContiguousSnoc(segs[1..], from + segs[0].Length(), to, seg, src);
      assert (segs + [seg])[1..] == segs[1..] + [seg];
    }
  }

  lemma AllGenuineSnoc(log: seq<Numbered>, limit: nat, n: Numbered, limit': nat, src: Source)
    requires AllGenuine(log, limit, src) && Genuine(n, src) && limit <= limit' && n.at + n.seg.Length() <= limit'
    ensures AllGenuine(log + [n], limit', src)
  {
  }

  lemma AllGenuineGrows(log: seq<Numbered>, limit: nat, src: Source, src': Source)
    requires AllGenuine(log, limit, src) && Grows(src, src')
    ensures AllGenuine(log, limit, src')
  {
    forall n | n in log ensures Genuine(n, src') {
      GenuineGrows(n, src, src');
    }
  }

  /** Sending a genuine segment at `next` extends the ledger and the log. */
  lemma SendNewKeeps(s: Sender, s': Sender, seg: Segment)
    requires Contiguous(s.outstanding, s.recvAckno, s.next, SourceOf(s)) && LogGenuine(s)
    requires seg.Length() > 0 && Genuine(Numbered(s.next, Stamped(s, seg)), SourceOf(s))
    requires s' == SendNew(s, seg)
    ensures Contiguous(s'.outstanding, s'.recvAckno, s'.next, SourceOf(s')) && LogGenuine(s')
  {
    Extended(s.outstanding, s.recvAckno, s.next, s.log, Stamped(s, seg), SourceOf(s));
  }

  lemma Extended(segs: seq<Segment>, from: nat, to: nat, log: seq<Numbered>, seg: Segment, src: Source)
    requires Contiguous(segs, from, to, src) && AllGenuine(log, to, src)
    requires seg.Length() > 0 && Genuine(Numbered(to, seg), src)
    ensures Contiguous(segs + [seg], from, to + seg.Length(), src)
    ensures AllGenuine(log + [Numbered(to, seg)], to + seg.Length(), src)
  {
    ContiguousSnoc(segs, from, to, seg, src);
    AllGenuineSnoc(log, to, Numbered(to, seg), to + seg.Length(), src);
  }

  /** The segments waiting to be forwarded are the last ones logged. */
  ghost predicate QueueLogged(s: Sender) {
    && |s.segmentsOut| <= |s.log|
    && forall i :: 0 <= i < |s.segmentsOut| ==> s.segmentsOut[i] == s.log[|s.log| - |s.segmentsOut| + i].seg
  }

  /** How many logged segments have left the queue. */
  function Forwarded(s: Sender): int {
    |s.log| - |s.segmentsOut|
  }

  lemma EmitQueued(s: Sender, at: nat, seg: Segment)
    requires QueueLogged(s)
    ensures QueueLogged(Emit(s, at, seg))
  {
  }

  // ---------- filling the window ----------

  /** A slice carries the stream's bytes at its own number. */
  lemma SliceGenuine(s: Sender, size: nat)
    requires Ledger(s) && s.synSent
    ensures var (s1, seg) := Slice(s, size);
            seg.Length() > 0 ==> Genuine(Numbered(s1.next, Stamped(s1, seg)), SourceOf(s1))
  {
    var (s1, seg) := Slice(s, size);
    if seg.Length() > 0 {
      assert s.stream.Eof() ==> s.stream.Peek(size) == [];
      assert !s.finSent;
      var k := |s.stream.popped|;
      assert seg.payload == s.stream.History()[k..k + |seg.payload|];
    }
  }

  lemma SlicedKeeps(s: Sender, size: nat)
    requires Ledger(s) && LogGenuine(s) && s.recvAckno >= 1 && s.synSent
    ensures Ledger(Sliced(s, size)) && LogGenuine(Sliced(s, size))
  {
    var (s1, seg) := Slice(s, size);
    assert SourceOf(s1) == SourceOf(s);
    if seg.Length() > 0 {
      SliceGenuine(s, size);
      SendNewKeeps(s1, SendNew(s1, seg), seg);
    }
  }

  lemma {:induction false} FillLoopKeeps(s: Sender, window: nat)
    requires Ledger(s) && LogGenuine(s) && s.recvAckno >= 1 && s.synSent
    ensures Ledger(FillLoop(s, window)) && LogGenuine(FillLoop(s, window))
    decreases |s.stream.buffer|, if s.finSent then 0 else 1
  {
    if !(Room(s, window) == 0 || (s.stream.Eof() && s.finSent)) {
      var size := Min(Room(s, window), MAX_PAYLOAD_SIZE);
      SlicedKeeps(s, size);
      if Slice(s, size).1.Length() != 0 {
        FillLoopKeeps(Sliced(s, size), window);
      }
    }
  }

  /** What filling the window leaves alone, and how it moves the rest. */
  ghost predicate Frame(s: Sender, s': Sender) {
    && s'.recvAckno == s.recvAckno && s'.window == s.window && s'.synAcked == s.synAcked
    && s'.initialTimeout == s.initialTimeout && s'.retransmissions == s.retransmissions
    && s'.time == s.time && s'.timeout == s.timeout
    && s'.stream.error == s.stream.error && s'.stream.capacity == s.stream.capacity
    && SourceOf(s') == SourceOf(s) && s.log <= s'.log
    && (s.synSent ==> s'.synSent) && (s.finSent ==> s'.finSent) && (s.running ==> s'.running)
    && (QueueLogged(s) ==> QueueLogged(s')) && Forwarded(s') == Forwarded(s)
    && ((s.outstanding != [] ==> s.running) ==> (s'.outstanding != [] ==> s'.running))
    && ((s.running <==> s.outstanding != []) ==> (s'.running <==> s'.outstanding != []))
  }

  lemma SendNewFrame(s: Sender, s': Sender, seg: Segment)
    requires s' == SendNew(s, seg).(running := true)
    ensures Frame(s, s')
  {
    assert s'.log == s.log + [Numbered(s.next, Stamped(s, seg))];
    if QueueLogged(s) {
      EmitQueued(s, s.next, Stamped(s, seg));
    }
  }

  lemma SlicedFrame(s: Sender, size: nat)
    ensures Frame(s, Sliced(s, size))
  {
    var (s1, seg) := Slice(s, size);
    assert Frame(s, s1);
    if seg.Length() != 0 {
      SendNewFrame(s1, Sliced(s, size), seg);
    }
  }

  lemma {:induction false} FillLoopFrame(s: Sender, window: nat)
    ensures Frame(s, FillLoop(s, window))
    decreases |s.stream.buffer|, if s.finSent then 0 else 1
  {
    if !(Room(s, window) == 0 || (s.stream.Eof() && s.finSent)) {
      var size := Min(Room(s, window), MAX_PAYLOAD_SIZE);
      SlicedFrame(s, size);
      if Slice(s, size).1.Length() != 0 {
        FillLoopFrame(Sliced(s, size), window);
      }
    }
  }

  lemma FillWindowFrame(s: Sender)
    ensures Frame(s, FillWindow(s))
  {
    if !s.synSent {
      if QueueLogged(s) {
        EmitQueued(s, s.next, Stamped(s, SYN_SEGMENT));
      }
    } else if s.synAcked {
      FillLoopFrame(s, EffectiveWindow(s));
    }
  }

  lemma FillWindowKeeps(s: Sender)
    requires Ledger(s) && LogGenuine(s) && SynState(s)
    ensures Ledger(FillWindow(s)) && LogGenuine(FillWindow(s)) && SynState(FillWindow(s))
  {
    FillWindowFrame(s);
    if !s.synSent {
      SendNewKeeps(s, SendNew(s, SYN_SEGMENT), SYN_SEGMENT);
    } else if s.synAcked {
      FillLoopKeeps(s, EffectiveWindow(s));
    }
  }

  // ---------- acknowledgments ----------

  lemma {:induction false} ContiguousOrder(segs: seq<Segment>, from: nat, to: nat, src: Source)
    requires Contiguous(segs, from, to, src)
    ensures from <= to && (segs != [] ==> from + segs[0].Length() <= to)
    decreases |segs|
  {
    if segs != [] {
      ContiguousOrder(segs[1..], from + segs[0].Length(), to, src);
    }
  }

  /** `b` is where some outstanding segment ends, or where the first one starts. */
  ghost predicate Boundary(segs: seq<Segment>, from: nat, b: nat)
    decreases |segs|
  {
    b == from || (segs != [] && Boundary(segs[1..], from + segs[0].Length(), b))
  }

  lemma {:induction false} BoundaryAbove(segs: seq<Segment>, from: nat, b: nat)
    requires Boundary(segs, from, b)
    ensures b == from || (segs != [] && b >= from + segs[0].Length())
    decreases |segs|
  {
    if b != from {
      BoundaryAbove(segs[1..], from + segs[0].Length(), b);
    }
  }

  function DropFirst(s: Sender): Sender
    requires s.outstanding != []
  {
    s.(outstanding := s.outstanding[1..], bytesInFlight := s.bytesInFlight - s.outstanding[0].Length(),
       recvAckno := s.recvAckno + s.outstanding[0].Length())
  }

  /** Unwrapping the number of the oldest outstanding segment finds it at `recvAckno`. */
  lemma OldestStartsAtAckno(s: Sender)
    requires Ledger(s) && Small(s) && s.outstanding != []
    ensures Unwrap(s.outstanding[0].header.seqno, s.isn, s.next) == s.recvAckno
    ensures Ledger(DropFirst(s)) && Small(DropFirst(s))
  {
    UnwrapNear(s.recvAckno, s.isn, s.next);
    ContiguousOrder(s.outstanding, s.recvAckno, s.next, SourceOf(s));
    assert SourceOf(DropFirst(s)) == SourceOf(s);
  }

  /** The greatest boundary at or below `abs`. */
  ghost predicate Covers(s: Sender, abs: nat, ackno: nat) {
    && Boundary(s.outstanding, s.recvAckno, ackno) && ackno <= abs
    && (forall b: nat :: Boundary(s.outstanding, s.recvAckno, b) && b <= abs ==> b <= ackno)
  }

  /** The loop in terms of absolute numbers. */
  lemma DropAckedUnfold(s: Sender, abs: nat)
    requires Ledger(s) && Small(s)
    ensures DropAcked(s, abs) ==
            if s.outstanding != [] && s.recvAckno + s.outstanding[0].Length() <= abs
            then DropAcked(DropFirst(s), abs) else s
    ensures s.outstanding != [] ==> Ledger(DropFirst(s)) && Small(DropFirst(s))
  {
    if s.outstanding != [] {
      OldestStartsAtAckno(s);
    }
  }

  lemma CoversFirst(s: Sender, abs: nat, ackno: nat)
    requires s.recvAckno <= abs
    ensures s.outstanding == [] || s.recvAckno + s.outstanding[0].Length() > abs ==> Covers(s, abs, s.recvAckno)
    ensures s.outstanding != [] && Covers(DropFirst(s), abs, ackno) ==> Covers(s, abs, ackno)
  {
    forall b: nat | Boundary(s.outstanding, s.recvAckno, b)
      ensures b == s.recvAckno || (s.outstanding != [] && b >= s.recvAckno + s.outstanding[0].Length())
    {
      BoundaryAbove(s.outstanding, s.recvAckno, b);
    }
    if s.outstanding != [] && Covers(DropFirst(s), abs, ackno) {
      var t := DropFirst(s);
      BoundaryAbove(t.outstanding, t.recvAckno, ackno);
      assert Boundary(s.outstanding, s.recvAckno, ackno);
      forall b: nat | Boundary(s.outstanding, s.recvAckno, b) && b <= abs ensures b <= ackno {
        assert b == s.recvAckno || Boundary(t.outstanding, t.recvAckno, b);
      }
    }
  }

  lemma {:induction false} DropAckedKeeps(s: Sender, abs: nat)
    requires Ledger(s) && Small(s) && s.recvAckno <= abs
    ensures Ledger(DropAcked(s, abs)) && Small(DropAcked(s, abs))
    ensures Covers(s, abs, DropAcked(s, abs).recvAckno)
    ensures var s' := DropAcked(s, abs);
            s' == s.(outstanding := s'.outstanding, bytesInFlight := s'.bytesInFlight, recvAckno := s'.recvAckno)
    decreases |s.outstanding|
  {
    DropAckedUnfold(s, abs);
    if s.outstanding != [] && s.recvAckno + s.outstanding[0].Length() <= abs {
      DropAckedKeeps(DropFirst(s), abs);
    }
    CoversFirst(s, abs, DropAcked(s, abs).recvAckno);
  }

  /** An acceptable number above `recvAckno` after SYN acknowledges at least the SYN. */
  lemma AckCoversSyn(s: Sender, abs: nat)
    requires Ledger(s) && Small(s) && s.recvAckno < abs <= s.next
    ensures DropAcked(s, abs).recvAckno >= 1
  {
    DropAckedKeeps(s, abs);
    if s.recvAckno == 0 {
      assert s.outstanding != [];
      ContiguousOrder(s.outstanding, 0, s.next, SourceOf(s));
      assert Boundary(s.outstanding[1..], 1, 1);
      assert Boundary(s.outstanding, 0, 1);
    }
  }

  lemma RestartKeeps(s: Sender, s': Sender)
    requires Ledger(s) && LogGenuine(s) && SynState(s) && (s.outstanding != [] ==> s.running)
    requires s.initialTimeout < TWO16 && s' == RestartTimer(s)
    ensures Inv(s')
  {
  }

  /** The state after a new acknowledgment has dropped what it covers. */
  function Dropped(s: Sender, abs: nat, window: u16): Sender {
    DropAcked(s.(window := window).(synAcked := true), abs)
  }

  lemma DroppedKeeps(s: Sender, abs: nat, window: u16)
    requires Inv(s) && Small(s) && s.recvAckno < abs <= s.next
    ensures Ledger(Dropped(s, abs, window)) && LogGenuine(Dropped(s, abs, window)) && SynState(Dropped(s, abs, window))
    ensures Covers(s, abs, Dropped(s, abs, window).recvAckno)
    ensures var s' := Dropped(s, abs, window);
            s' == s.(window := window, synAcked := true,
                     outstanding := s'.outstanding, bytesInFlight := s'.bytesInFlight, recvAckno := s'.recvAckno)
    ensures Dropped(s, abs, window).outstanding != [] ==> s.running
  {
    var s1 := s.(window := window).(synAcked := true);
    assert SourceOf(s1) == SourceOf(s);
    DropAckedKeeps(s1, abs);
    AckCoversSyn(s1, abs);
    assert Covers(s, abs, Dropped(s, abs, window).recvAckno);
    assert s.outstanding != [];
  }

  // ---------- every call ----------

  /** How one call moves the sender: nothing logged is forgotten, the stream only grows, numbers only advance. */
  ghost predicate Advances(s: Sender, s': Sender) {
    && Grows(SourceOf(s), SourceOf(s'))
    && s.log <= s'.log && s.next <= s'.next && s.recvAckno <= s'.recvAckno
    && (QueueLogged(s) ==> QueueLogged(s')) && Forwarded(s') == Forwarded(s)
    && (s.synSent ==> s'.synSent) && (s.finSent ==> s'.finSent)
    && s'.initialTimeout == s.initialTimeout && s'.stream.error == s.stream.error
  }

  /** Where an acknowledgment leaves `recvAckno`: at the greatest outstanding segment end it covers. */
  ghost predicate AckMoves(s: Sender, s': Sender, ackno: u32) {
    var abs := Unwrap(ackno, s.isn, s.next);
    if s.recvAckno < abs <= s.next then Covers(s, abs, s'.recvAckno) else s'.recvAckno == s.recvAckno
  }

  lemma FillWindowAdvances(s: Sender)
    requires Ledger(s) && LogGenuine(s) && SynState(s)
    ensures FillWindow(s).next >= s.next
  {
    FillWindowKeeps(s);
    FillWindowFrame(s);
    var s' := FillWindow(s);
    if s.synSent && s.synAcked {
      FillLoopNext(s, EffectiveWindow(s));
    }
  }

  lemma {:induction false} FillLoopNext(s: Sender, window: nat)
    ensures FillLoop(s, window).next >= s.next
    decreases |s.stream.buffer|, if s.finSent then 0 else 1
  {
    if !(Room(s, window) == 0 || (s.stream.Eof() && s.finSent)) {
      var size := Min(Room(s, window), MAX_PAYLOAD_SIZE);
      if Slice(s, size).1.Length() != 0 {
        FillLoopNext(Sliced(s, size), window);
      }
    }
  }

  lemma FillKeeps(s: Sender)
    requires Inv(s)
    ensures Inv(FillWindow(s)) && Advances(s, FillWindow(s))
  {
    FillWindowKeeps(s);
    FillWindowFrame(s);
    FillWindowAdvances(s);
  }

  lemma AckKeeps(s: Sender, ackno: u32, window: u16)
    requires Inv(s) && Small(s)
    ensures Inv(AckReceived(s, ackno, window)) && Advances(s, AckReceived(s, ackno, window))
    ensures AckMoves(s, AckReceived(s, ackno, window), ackno)
  {
    var abs := Unwrap(ackno, s.isn, s.next);
    if s.recvAckno < abs <= s.next {
      DroppedKeeps(s, abs, window);
      var s1 := Dropped(s, abs, window);
      FillWindowKeeps(s1);
      FillWindowFrame(s1);
      FillWindowAdvances(s1);
      RestartKeeps(FillWindow(s1), RestartTimer(FillWindow(s1)));
      AckAdvances(s, s1, FillWindow(s1), abs);
    }
  }

  /** An acknowledgment leaves the stream alone, and an acceptable one sets the window. */
  lemma AckFrame(s: Sender, ackno: u32, window: u16)
    requires Inv(s) && Small(s)
    ensures var s' := AckReceived(s, ackno, window);
            && SourceOf(s') == SourceOf(s) && s'.stream.capacity == s.stream.capacity
            && (AckAcceptable(s, ackno) ==> s'.window == window)
  {
    var abs := Unwrap(ackno, s.isn, s.next);
    if s.recvAckno < abs <= s.next {
      DroppedKeeps(s, abs, window);
      FillWindowFrame(Dropped(s, abs, window));
    }
  }

  lemma AckAdvances(s: Sender, s1: Sender, s2: Sender, abs: nat)
    requires s1 == s.(window := s1.window, synAcked := true, outstanding := s1.outstanding,
                      bytesInFlight := s1.bytesInFlight, recvAckno := s1.recvAckno)
    requires Covers(s, abs, s1.recvAckno) && Frame(s1, s2) && s2.next >= s1.next && abs >= s.recvAckno
    ensures Advances(s, RestartTimer(s2)) && RestartTimer(s2).recvAckno == s1.recvAckno
  {
    assert Boundary(s.outstanding, s.recvAckno, s.recvAckno);
    assert QueueLogged(s) ==> QueueLogged(s1);
    assert QueueLogged(s2) ==> QueueLogged(RestartTimer(s2));
  }

  /** A retransmission is the oldest outstanding segment, the one at `recvAckno`. */
  lemma TickKeeps(s: Sender, ms: nat)
    requires Inv(s)
    ensures Inv(Tick(s, ms)) && Advances(s, Tick(s, ms))
    ensures Expires(s, ms) ==>
              && s.outstanding != []
              && Tick(s, ms).log == s.log + [Numbered(s.recvAckno, s.outstanding[0])]
              && s.outstanding[0].header.seqno == Wrap(s.recvAckno, s.isn)
    ensures !Expires(s, ms) ==> Tick(s, ms).log == s.log
  {
    if s.running {
      var s1 := s.(time := s.time + ms);
      LaterKeeps(s, s1, ms);
      if Expires(s, ms) {
        ExpireKeeps(s1, Tick(s, ms));
      }
    }
  }

  lemma LaterKeeps(s: Sender, s': Sender, ms: nat)
    requires Inv(s) && s.running && s' == s.(time := s.time + ms)
    ensures Inv(s') && Advances(s, s')
  {
  }

  lemma ExpireKeeps(s: Sender, s': Sender)
    requires Inv(s) && s.running && s' == Expire(s)
    ensures Inv(s') && Advances(s, s')
    ensures s.outstanding != [] && s'.log == s.log + [Numbered(s.recvAckno, s.outstanding[0])]
    ensures s.outstanding[0].header.seqno == Wrap(s.recvAckno, s.isn)
  {
    OldestLogged(s.outstanding, s.recvAckno, s.next, s.log, SourceOf(s));
    DoubledTimeout(s.initialTimeout, s.retransmissions);
    if QueueLogged(s) {
      EmitQueued(s, s.recvAckno, s.outstanding[0]);
    }
  }

  lemma OldestLogged(segs: seq<Segment>, from: nat, to: nat, log: seq<Numbered>, src: Source)
    requires segs != [] && Contiguous(segs, from, to, src) && AllGenuine(log, to, src)
    ensures AllGenuine(log + [Numbered(from, segs[0])], to, src)
  {
    ContiguousOrder(segs, from, to, src);
    AllGenuineSnoc(log, to, Numbered(from, segs[0]), to, src);
  }

  lemma DoubledTimeout(initial: nat, k: nat)
    ensures Doubled((initial * Pow2(k)) % TWO64) == (initial * Pow2(k + 1)) % TWO64
  {
    assert initial * (2 * Pow2(k)) == 2 * (initial * Pow2(k));
    DoubleWraps(initial * Pow2(k));
  }

  lemma DoubleWraps(x: nat)
    ensures ((x % TWO64) * 2) % TWO64 == (2 * x) % TWO64
  {
  }

  lemma WriteKeeps(s: Sender, data: bytes)
    requires Inv(s) && !s.stream.ended
    ensures Inv(Write(s, data)) && Advances(s, Write(s, data))
  {
    var s' := Write(s, data);
    assert SourceOf(s).history <= SourceOf(s').history;
    ContiguousGrows(s.outstanding, s.recvAckno, s.next, SourceOf(s), SourceOf(s'));
    AllGenuineGrows(s.log, s.next, SourceOf(s), SourceOf(s'));
  }

  lemma EndInputKeeps(s: Sender)
    requires Inv(s)
    ensures Inv(EndInput(s)) && Advances(s, EndInput(s))
  {
    var s' := EndInput(s);
    assert SourceOf(s).history == SourceOf(s').history;
    ContiguousGrows(s.outstanding, s.recvAckno, s.next, SourceOf(s), SourceOf(s'));
    AllGenuineGrows(s.log, s.next, SourceOf(s), SourceOf(s'));
  }

  lemma SendEmptyKeeps(s: Sender)
    requires Inv(s)
    ensures Inv(SendEmpty(s)) && Advances(s, SendEmpty(s))
  {
    var n := Numbered(s.next, Stamped(s, EMPTY_SEGMENT));
    AllGenuineSnoc(s.log, s.next, n, s.next, SourceOf(s));
    if QueueLogged(s) {
      EmitQueued(s, s.next, n.seg);
    }
  }

  datatype Call =
    | WriteCall(data: bytes) | EndCall | FillCall | EmptyCall
    | AckCall(ackno: u32, window: u16) | TickCall(ms: nat)

  /** No write after the end of input, as the owner ensures. */
  predicate LegalCall(s: Sender, c: Call) {
    s.stream.Bounded() && (c.WriteCall? ==> !s.stream.ended)
  }

  function Apply(s: Sender, c: Call): Sender
    requires LegalCall(s, c)
  {
    match c
    case WriteCall(data) => Write(s, data)
    case EndCall => EndInput(s)
    case FillCall => FillWindow(s)
    case EmptyCall => SendEmpty(s)
    case AckCall(ackno, window) => AckReceived(s, ackno, window)
    case TickCall(ms) => Tick(s, ms)
  }

  lemma CallKeeps(s: Sender, c: Call)
    requires Inv(s) && Small(s) && LegalCall(s, c)
    ensures Inv(Apply(s, c)) && Advances(s, Apply(s, c))
  {
    match c
    case WriteCall(data) => WriteKeeps(s, data);
    case EndCall => EndInputKeeps(s);
    case FillCall => FillKeeps(s);
    case EmptyCall => SendEmptyKeeps(s);
    case AckCall(ackno, window) => AckKeeps(s, ackno, window);
    case TickCall(ms) => TickKeeps(s, ms);
  }

  /** A run: any calls from a new sender, with less than 2^31 in flight before each. */
  ghost predicate IsRun(states: seq<Sender>, calls: seq<Call>, capacity: nat, timeout: u16, isn: u32) {
    && |states| == |calls| + 1 && states[0] == NewSender(capacity, timeout, isn)
    && forall i :: 0 <= i < |calls| ==>
         Small(states[i]) && LegalCall(states[i], calls[i]) && states[i + 1] == Apply(states[i], calls[i])
  }

  lemma NewSenderInv(capacity: nat, timeout: u16, isn: u32)
    ensures Inv(NewSender(capacity, timeout, isn))
  {
    assert timeout * Pow2(0) == timeout;
  }

  /** The first call of `fill_window` sends the SYN. */
  lemma FirstFill(s: Sender)
    requires !s.synSent
    ensures var s' := FillWindow(s);
            && s'.next == s.next + 1 && s'.stream == s.stream && s'.recvAckno == s.recvAckno && s'.isn == s.isn
            && s'.log == s.log + [Numbered(s.next, Stamped(s, SYN_SEGMENT))]
  {
  }

  /** The ledger and the timer hold in every state of every run. */
  lemma {:induction false} RunKeeps(
    states: seq<Sender>, calls: seq<Call>, capacity: nat, timeout: u16, isn: u32, k: nat)
    requires IsRun(states, calls, capacity, timeout, isn) && k < |states|
    ensures Inv(states[k])
    decreases k
  {
    if k > 0 {
      RunKeeps(states, calls, capacity, timeout, isn, k - 1);
      CallKeeps(states[k - 1], calls[k - 1]);
    }
  }

  /** One more call extends a run. */
  lemma RunSnoc(states: seq<Sender>, calls: seq<Call>, c: Call, capacity: nat, timeout: u16, isn: u32)
    returns (states': seq<Sender>, calls': seq<Call>)
    requires IsRun(states, calls, capacity, timeout, isn)
    requires Small(states[|calls|]) && LegalCall(states[|calls|], c)
    ensures IsRun(states', calls', capacity, timeout, isn)
    ensures states'[|calls'|] == Apply(states[|calls|], c)
  {
    states', calls' := states + [Apply(states[|calls|], c)], calls + [c];
    forall i | 0 <= i < |calls'|
      ensures Small(states'[i]) && LegalCall(states'[i], calls'[i]) && states'[i + 1] == Apply(states'[i], calls'[i])
    {
      if i < |calls| {
        assert calls'[i] == calls[i] && states'[i] == states[i] && states'[i + 1] == states[i + 1];
      }
    }
  }
}
