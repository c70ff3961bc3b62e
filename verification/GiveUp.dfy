/** How long a connection retransmits into silence before it gives up, and when a tick ends it. */
module GiveUp {
  import opened Numbers
  import S = Senders
  import SL = SenderLedger
  import opened Connections
  import CR = ConnectionRuns

  function Sum(ticks: seq<nat>): nat {
    if ticks == [] then 0 else Sum(ticks[..|ticks| - 1]) + ticks[|ticks| - 1]
  }

  // ---------- the sender's timer ----------

  /** Something is outstanding, and the timer has just been started or restarted. */
  ghost predicate Fresh(s: S.Sender) {
    SL.Inv(s) && s.outstanding != [] && s.time == 0 && s.retransmissions == 0 && s.initialTimeout >= 1
  }

  /** The timeout after `k` expiries still fits in 64 bits. */
  predicate Fits(initial: nat, k: nat) {
    initial * Pow2(k) < TWO64
  }

  lemma FitsBefore(initial: nat, k: nat)
    requires Fits(initial, k + 1)
    ensures Fits(initial, k)
  {
    assert initial * (2 * Pow2(k)) == 2 * (initial * Pow2(k));
  }

  /** While it fits, the timeout is the initial one times a power of two. */
  lemma TimeoutExact(s: S.Sender)
    requires SL.Inv(s) && Fits(s.initialTimeout, s.retransmissions)
    ensures s.timeout == s.initialTimeout * Pow2(s.retransmissions)
    ensures s.initialTimeout >= 1 ==> s.timeout >= 1
  {
    Unwrapped(s.initialTimeout, Pow2(s.retransmissions));
  }

  lemma Unwrapped(a: nat, b: nat)
    requires a * b < TWO64 && b >= 1
    ensures (a * b) % TWO64 == a * b && (a >= 1 ==> a * b >= 1)
  {
  }

  /** The time in which the first `k` expiries fall due. */
  function Due(initial: nat, k: nat): nat {
    initial * (Pow2(k) - 1)
  }

  lemma DueStep(initial: nat, k: nat)
    ensures Due(initial, k + 1) == Due(initial, k) + initial * Pow2(k)
  {
    assert initial * (2 * Pow2(k) - 1) == initial * (Pow2(k) - 1) + initial * Pow2(k);
  }

  /**
   `k` expiries take at least (2^k - 1) times the initial timeout, plus the
   running timer, as long as the timeout fits in 64 bits; and what was waited
   for once stays waited for.
   */
  ghost predicate Slow(s: S.Sender, total: nat) {
    && (Fits(s.initialTimeout, s.retransmissions) ==> total >= Due(s.initialTimeout, s.retransmissions) + s.time)
    && (forall j :: 0 <= j <= s.retransmissions && Fits(s.initialTimeout, j) ==> total >= Due(s.initialTimeout, j))
  }

  /** With ticks of at most `step`, each expiry is late by less than one tick. */
  ghost predicate Prompt(s: S.Sender, total: nat, step: nat) {
    Fits(s.initialTimeout, s.retransmissions) ==>
      && s.time < s.timeout
      && total <= Due(s.initialTimeout, s.retransmissions) + s.time + s.retransmissions * (step - 1)
  }

  lemma TickIsSlow(s: S.Sender, total: nat, ms: nat)
    requires SL.Inv(s) && s.outstanding != [] && Slow(s, total)
    ensures Slow(S.Tick(s, ms), total + ms)
  {
    var s', initial, k := S.Tick(s, ms), s.initialTimeout, s.retransmissions;
    if S.Expires(s, ms) {
      if Fits(initial, k + 1) {
        FitsBefore(initial, k);
        TimeoutExact(s);
        DueStep(initial, k);
      }
      assert s'.retransmissions == k + 1 && s'.initialTimeout == initial && s'.time == 0;
    }
  }

  /** One more expiry, at most one tick late. */
  lemma LateByOneTick(initial: nat, k: nat, time: nat, ms: nat, step: nat, total: nat)
    requires total <= Due(initial, k) + time + k * (step - 1)
    requires time < initial * Pow2(k) && ms <= step && step >= 1
    ensures total + ms <= Due(initial, k + 1) + (k + 1) * (step - 1)
  {
    DueStep(initial, k);
    assert (k + 1) * (step - 1) == k * (step - 1) + (step - 1);
  }

  lemma TickIsPrompt(s: S.Sender, total: nat, ms: nat, step: nat)
    requires SL.Inv(s) && s.outstanding != [] && s.initialTimeout >= 1 && ms <= step && step >= 1
    requires Prompt(s, total, step)
    ensures Prompt(S.Tick(s, ms), total + ms, step)
  {
    var s', initial, k := S.Tick(s, ms), s.initialTimeout, s.retransmissions;
    if S.Expires(s, ms) {
      if Fits(initial, k + 1) {
        FitsBefore(initial, k);
        TimeoutExact(s);
        LateByOneTick(initial, k, s.time, ms, step, total);
        SL.TickKeeps(s, ms);
        TimeoutExact(s');
      }
    }
  }

  // ---------- the connection ----------

  function Ticks(c: Connection, ticks: seq<nat>): (c': Connection)
    requires Bounded(c)
    ensures Bounded(c')
  {
    if ticks == [] then c else Tick(Ticks(c, ticks[..|ticks| - 1]), ticks[|ticks| - 1])
  }

  /** The part of a sender that silence moves, and what it waits for. */
  predicate SameTimer(s: S.Sender, t: S.Sender) {
    && s.time == t.time && s.timeout == t.timeout && s.retransmissions == t.retransmissions
    && s.outstanding == t.outstanding && s.initialTimeout == t.initialTimeout && s.bytesInFlight == t.bytesInFlight
  }

  lemma RetransmitTimer(c: Connection)
    requires Bounded(c)
    ensures SameTimer(Retransmit(c).sender, c.sender)
    ensures Retransmit(c).active == (c.active && !(c.sender.segmentsOut != [] && GivesUp(c)))
  {
  }

  lemma NotDone(c: Connection)
    requires c.sender.bytesInFlight > 0
    ensures CloseIfDone(c) == c
  {
  }

  /** One tick of silence: the timer moves, and an expiry after the eighth ends the connection. */
  lemma TickInSilence(c: Connection, ms: nat)
    requires CR.Inv(c) && c.sender.outstanding != []
    ensures CR.Inv(Tick(c, ms)) && SameTimer(Tick(c, ms).sender, S.Tick(c.sender, ms))
    ensures S.Tick(c.sender, ms).outstanding == c.sender.outstanding
    ensures S.Tick(c.sender, ms).initialTimeout == c.sender.initialTimeout
    ensures S.Tick(c.sender, ms).retransmissions == c.sender.retransmissions + (if S.Expires(c.sender, ms) then 1 else 0)
    ensures Tick(c, ms).active ==
            (c.active && !(S.Expires(c.sender, ms) && S.Tick(c.sender, ms).retransmissions > MAX_RETX_ATTEMPTS))
  {
    CR.TickKeeps(c, ms);
    CR.ElapseKeeps(c, ms);
    RetransmitTimer(Elapse(c, ms));
    SL.ContiguousOrder(c.sender.outstanding, c.sender.recvAckno, c.sender.next, SL.SourceOf(c.sender));
    NotDone(Retransmit(Elapse(c, ms)));
  }

  /** A tick ends an active connection exactly on the ninth expiry, or once all is done and it has lingered enough. */
  lemma TickClosesIff(c: Connection, ms: nat)
    requires CR.Inv(c) && c.active
    ensures !Tick(c, ms).active <==>
            (S.Expires(c.sender, ms) && c.sender.retransmissions >= MAX_RETX_ATTEMPTS) || CR.Done(c, ms)
  {
    CR.FinishedIff(c);
    if c.sender.outstanding != [] {
      TickInSilence(c, ms);
    } else {
      CR.ElapseKeeps(c, ms);
      CR.CloseKeeps(Elapse(c, ms));
    }
  }

  ghost predicate AllAtMost(ticks: seq<nat>, step: nat) {
    forall i :: 0 <= i < |ticks| ==> ticks[i] <= step
  }

  /** What holds after `total` milliseconds of silence; `small` says that no tick was longer than `step`. */
  ghost predicate InSilence(c: Connection, was: S.Sender, total: nat, step: nat, small: bool) {
    && CR.Inv(c) && c.sender.outstanding == was.outstanding && c.sender.initialTimeout == was.initialTimeout
    && Slow(c.sender, total) && (small ==> Prompt(c.sender, total, step))
    && (c.active <==> c.sender.retransmissions <= MAX_RETX_ATTEMPTS)
  }

  lemma SilentStep(c: Connection, was: S.Sender, total: nat, ms: nat, step: nat, small: bool)
    requires InSilence(c, was, total, step, small) && was.outstanding != [] && was.initialTimeout >= 1 && step >= 1
    requires small ==> ms <= step
    ensures InSilence(Tick(c, ms), was, total + ms, step, small)
  {
    TickInSilence(c, ms);
    TickIsSlow(c.sender, total, ms);
    if small {
      TickIsPrompt(c.sender, total, ms, step);
    }
  }

  /** Bounds on the silent time after any number of ticks: the connection is active exactly until the ninth expiry. */
  lemma {:induction false} ExpiryBounds(c: Connection, ticks: seq<nat>, step: nat)
    requires CR.Inv(c) && c.active && Fresh(c.sender) && step >= 1
    ensures InSilence(Ticks(c, ticks), c.sender, Sum(ticks), step, AllAtMost(ticks, step))
    decreases |ticks|
  {
    if ticks == [] {
      TimeoutExact(c.sender);
    } else {
      var rest, last := ticks[..|ticks| - 1], ticks[|ticks| - 1];
      ExpiryBounds(c, rest, step);
      assert AllAtMost(ticks, step) ==> AllAtMost(rest, step) && last <= step;
      SilentStep(Ticks(c, rest), c.sender, Sum(rest), last, step, AllAtMost(ticks, step));
    }
  }

  /**
   A connection never gives up before 511 initial timeouts of silence, and with
   ticks of at most `step` it has given up once 511 timeouts and eight steps
   have passed.
   */
  lemma GiveUpBounds(c: Connection, ticks: seq<nat>, step: nat)
    requires CR.Inv(c) && c.active && Fresh(c.sender) && step >= 1
    ensures !Ticks(c, ticks).active ==> Sum(ticks) >= 511 * c.sender.initialTimeout
    ensures AllAtMost(ticks, step) && Sum(ticks) >= 511 * c.sender.initialTimeout + 8 * (step - 1) ==>
              !Ticks(c, ticks).active
  {
    ExpiryBounds(c, ticks, step);
    NinthExpiry(Ticks(c, ticks).sender, Sum(ticks), step);
  }

  /** The bounds at the ninth expiry. */
  lemma NinthExpiry(s: S.Sender, total: nat, step: nat)
    requires SL.Inv(s) && Slow(s, total) && step >= 1
    ensures s.retransmissions >= 9 ==> total >= 511 * s.initialTimeout
    ensures Prompt(s, total, step) && total >= 511 * s.initialTimeout + 8 * (step - 1) ==> s.retransmissions >= 9
  {
    var initial, k := s.initialTimeout, s.retransmissions;
    NinthDue(initial);
    if k < 9 && Prompt(s, total, step) {
      FitsBelow(initial, k, 9);
      TimeoutExact(s);
      BeforeNinth(initial, k, s.time, step, total);
    }
  }

  lemma BeforeNinth(initial: nat, k: nat, time: nat, step: nat, total: nat)
    requires k <= 8 && step >= 1 && initial < TWO16 && time < initial * Pow2(k)
    requires total <= Due(initial, k) + time + k * (step - 1)
    ensures total < 511 * initial + 8 * (step - 1)
  {
    NinthDue(initial);
    DueStep(initial, k);
    DueMonotone(initial, k + 1, 9);
    assert k * (step - 1) <= 8 * (step - 1);
  }

  lemma NinthDue(initial: nat)
    requires initial < TWO16
    ensures Fits(initial, 9) && Due(initial, 9) == 511 * initial
  {
    assert Pow2(9) == 512 by { assert Pow2(3) == 8 && Pow2(6) == 64; }
  }

  lemma {:induction false} FitsBelow(initial: nat, k: nat, j: nat)
    requires k <= j && Fits(initial, j)
    ensures Fits(initial, k)
    decreases j - k
  {
    if k < j {
      FitsBelow(initial, k + 1, j);
      FitsBefore(initial, k);
    }
  }

  lemma {:induction false} DueMonotone(initial: nat, k: nat, j: nat)
    requires k <= j
    ensures Due(initial, k) <= Due(initial, j)
    decreases j - k
  {
    if k < j {
      DueStep(initial, k);
      DueMonotone(initial, k + 1, j);
    }
  }
}
