/** Whole runs of a network interface, recorded as a trace of timed events. */
module ArpRuns {
  import opened Numbers
  import opened Buffers
  import opened Ipv4Codec
  import opened NetworkInterfaces

  datatype Event =
    | Submitted(dgram: Datagram, hop: u32, at: nat)
    | Sent(dgram: Datagram, hop: u32, mac: Mac, at: nat)
    | Expired(dgram: Datagram, hop: u32, at: nat)
    | Requested(ip: u32, at: nat)
    | Replied(ip: u32, mac: Mac, at: nat)
    | Heard(ip: u32, mac: Mac, reply: bool, at: nat)

  type Trace = seq<Event>

  function Init(t: Trace): Trace
    requires t != []
  {
    t[..|t| - 1]
  }

  function Last(t: Trace): Event
    requires t != []
  {
    t[|t| - 1]
  }

  lemma Snoc(t: Trace, e: Event)
    ensures t + [e] != [] && Init(t + [e]) == t && Last(t + [e]) == e
  {
  }

  // ---------- what a trace says ----------

  /** The frames an event puts on the wire. */
  function FrameOf(mac: Mac, ip: u32, e: Event): seq<Frame> {
    match e
    case Sent(dgram, _, dst, _) => [IpFrame(mac, dst, dgram)]
    case Requested(target, _) => [RequestFrame(mac, ip, target)]
    case Replied(target, dst, _) => [ReplyFrame(mac, ip, dst, target)]
    case _ => []
  }

  function FramesOf(mac: Mac, ip: u32, t: Trace): seq<Frame> {
    if t == [] then [] else FramesOf(mac, ip, Init(t)) + FrameOf(mac, ip, Last(t))
  }

  /** The last address announced for `ip`, and when. */
  function LastHeard(t: Trace, ip: u32): Option<(Mac, nat)> {
    if t == [] then None
    else if Last(t).Heard? && Last(t).ip == ip then Some((Last(t).mac, Last(t).at))
    else LastHeard(Init(t), ip)
  }

  /** When the last request for `ip` was made, unless a reply has come since. */
  function LastOpen(t: Trace, ip: u32): Option<nat> {
    if t == [] then None
    else if Last(t).Requested? && Last(t).ip == ip then Some(Last(t).at)
    else if Last(t).Heard? && Last(t).reply && Last(t).ip == ip then None
    else LastOpen(Init(t), ip)
  }

  datatype Kind = InKind | OutKind | LostKind

  /** Whether an event submits, sends or loses datagram `d` for `hop`. */
  predicate Counts(e: Event, k: Kind, hop: u32, d: Datagram) {
    match e
    case Submitted(x, h, _) => k.InKind? && h == hop && x == d
    case Sent(x, h, _, _) => k.OutKind? && h == hop && x == d
    case Expired(x, h, _) => k.LostKind? && h == hop && x == d
    case _ => false
  }

  /** How often datagram `d` was submitted, sent or lost for `hop`. */
  function Tally(t: Trace, k: Kind, hop: u32, d: Datagram): nat {
    if t == [] then 0 else Tally(Init(t), k, hop, d) + (if Counts(Last(t), k, hop, d) then 1 else 0)
  }

  function Occurs(dgrams: seq<Datagram>, d: Datagram): nat {
    if dgrams == [] then 0
    else Occurs(dgrams[..|dgrams| - 1], d) + (if dgrams[|dgrams| - 1] == d then 1 else 0)
  }

  lemma OccursSnoc(dgrams: seq<Datagram>, x: Datagram, d: Datagram)
    ensures Occurs(dgrams + [x], d) == Occurs(dgrams, d) + (if x == d then 1 else 0)
  {
    assert (dgrams + [x])[..|dgrams|] == dgrams;
  }

  /** What may be recorded after `t`. */
  ghost predicate EventOk(t: Trace, e: Event) {
    // a datagram goes to the address last announced for its hop, less than 30 s ago
    && (e.Sent? ==> LastHeard(t, e.hop).Some? && LastHeard(t, e.hop).value.0 == e.mac
                    && e.at - LastHeard(t, e.hop).value.1 < ARP_CACHE_TTL)
    // a request repeats an unanswered one only after 5 s
    && (e.Requested? ==> LastOpen(t, e.ip).None? || e.at - LastOpen(t, e.ip).value >= ARP_PENDING_TTL)
  }

  ghost predicate TraceOk(t: Trace, now: nat) {
    t == [] || (TraceOk(Init(t), now) && Last(t).at <= now && EventOk(Init(t), Last(t)))
  }

  // ---------- runs ----------

  datatype World = World(iface: Interface, now: nat, trace: Trace)

  function Record(w: World, e: Event): World {
    w.(trace := w.trace + [e])
  }

  function Send(w: World, dgram: Datagram, hop: u32): World {
    var w1 := Record(w, Submitted(dgram, hop, w.now)).(iface := SendDatagram(w.iface, dgram, hop));
    if hop in w.iface.cache then Record(w1, Sent(dgram, hop, w.iface.cache[hop].mac, w.now))
    else if hop !in w.iface.pending then Record(w1, Requested(hop, w.now))
    else w1
  }

  function AddSent(t: Trace, dgrams: seq<Datagram>, hop: u32, mac: Mac, at: nat): Trace {
    if dgrams == [] then t
    else AddSent(t, dgrams[..|dgrams| - 1], hop, mac, at) + [Sent(dgrams[|dgrams| - 1], hop, mac, at)]
  }

  function AddExpired(t: Trace, dgrams: seq<Datagram>, hop: u32, at: nat): Trace {
    if dgrams == [] then t
    else AddExpired(t, dgrams[..|dgrams| - 1], hop, at) + [Expired(dgrams[|dgrams| - 1], hop, at)]
  }

  function HearFrame(w: World, f: Frame): World
    requires Expected(w.iface, f)
  {
    var w1 := w.(iface := ReceiveFrame(w.iface, f).0);
    if !AddressedTo(w.iface, f) || !f.body.ArpBody? || f.body.msg.targetIp != w.iface.ip then w1
    else
      var m := f.body.msg;
      if m.opcode == OPCODE_REPLY then
        w1.(trace := AddSent(w.trace + [Heard(m.senderIp, m.senderMac, true, w.now)],
                             w.iface.pending[m.senderIp].dgrams, m.senderIp, m.senderMac, w.now))
      else
        w1.(trace := w.trace + [Heard(m.senderIp, m.senderMac, false, w.now)]
                     + [Replied(m.senderIp, m.senderMac, w.now)])
  }

  /** The expiries among `keys`, in ascending order of address. */
  ghost function Expiries(t: Trace, pending: map<u32, Pending>, keys: set<u32>, ms: nat, at: nat): Trace
    requires keys <= pending.Keys
    decreases |keys|
  {
    if keys == {} then t
    else
      var k := Greatest(keys);
      var before := Expiries(t, pending, keys - {k}, ms, at);
      if Aged(pending[k].ttl, ms) <= 0 then AddExpired(before, pending[k].dgrams, k, at) else before
  }

  ghost function Greatest(keys: set<u32>): (k: u32)
    requires keys != {}
    ensures k in keys && forall j :: j in keys ==> j <= k
  {
    GreatestExists(keys);
    var k: u32 :| k in keys && forall j :: j in keys ==> j <= k;
    k
  }

  lemma {:induction false} GreatestExists(keys: set<u32>)
    requires keys != {}
    ensures exists k: u32 :: k in keys && forall j :: j in keys ==> j <= k
    decreases |keys|
  {
    var x :| x in keys;
    if keys == {x} {
      assert forall j :: j in keys ==> j <= x;
    } else {
      assert keys == keys - {x} + {x};
      GreatestExists(keys - {x});
      var y: u32 :| y in keys - {x} && forall j :: j in keys - {x} ==> j <= y;
      var m := if x <= y then y else x;
      assert forall j :: j in keys ==> j == x || j in keys - {x};
      assert m in keys && forall j :: j in keys ==> j <= m;
    }
  }

  ghost function PassTime(w: World, ms: nat): World {
    World(Tick(w.iface, ms), w.now + ms, Expiries(w.trace, w.iface.pending, w.iface.pending.Keys, ms, w.now + ms))
  }

  // ---------- the invariant ----------

  function PendingFor(i: Interface, hop: u32): seq<Datagram> {
    if hop in i.pending then i.pending[hop].dgrams else []
  }

  /** Each datagram submitted for a hop is exactly once sent, lost or waiting. */
  ghost predicate Conserved(i: Interface, t: Trace) {
    forall hop: u32, d: Datagram :: Balanced(t, hop, d, Occurs(PendingFor(i, hop), d))
  }

  ghost predicate Balanced(t: Trace, hop: u32, d: Datagram, waiting: nat) {
    Tally(t, InKind, hop, d) == Tally(t, OutKind, hop, d) + Tally(t, LostKind, hop, d) + waiting
  }

  /** A cached address is the last one announced, and its counter tells how long ago. */
  ghost predicate CacheOk(i: Interface, t: Trace, now: nat) {
    forall ip :: ip in i.cache ==>
      && LastHeard(t, ip).Some? && LastHeard(t, ip).value.0 == i.cache[ip].mac
      && i.cache[ip].ttl == ARP_CACHE_TTL - (now - LastHeard(t, ip).value.1) > 0
      && LastHeard(t, ip).value.1 <= now
  }

  /** A waiting hop has an open request, and its counter tells how long ago; other requests are answered or old. */
  ghost predicate PendingOk(i: Interface, t: Trace, now: nat) {
    forall ip: u32 ::
      if ip in i.pending then
        && LastOpen(t, ip).Some? && LastOpen(t, ip).value <= now
        && i.pending[ip].ttl == ARP_PENDING_TTL - (now - LastOpen(t, ip).value) > 0
      else LastOpen(t, ip).None? || now - LastOpen(t, ip).value >= ARP_PENDING_TTL
  }

  ghost predicate Inv(w: World) {
    && w.iface.framesOut == FramesOf(w.iface.mac, w.iface.ip, w.trace)
    && TraceOk(w.trace, w.now)
    && CacheOk(w.iface, w.trace, w.now) && PendingOk(w.iface, w.trace, w.now)
    && Conserved(w.iface, w.trace)
  }

  // ---------- one more event ----------

  /** How one more event changes what a trace says. */
  lemma OneMore(t: Trace, e: Event, mac: Mac, ip: u32, now: nat)
    ensures FramesOf(mac, ip, t + [e]) == FramesOf(mac, ip, t) + FrameOf(mac, ip, e)
    ensures forall x: u32 :: LastHeard(t + [e], x) ==
              if e.Heard? && e.ip == x then Some((e.mac, e.at)) else LastHeard(t, x)
    ensures forall x: u32 :: LastOpen(t + [e], x) ==
              if e.Requested? && e.ip == x then Some(e.at)
              else if e.Heard? && e.reply && e.ip == x then None else LastOpen(t, x)
    ensures TraceOk(t + [e], now) <==> TraceOk(t, now) && e.at <= now && EventOk(t, e)
  {
    Snoc(t, e);
  }

  /** One event keeps the balance when it moves a datagram into or out of the waiting ones. */
  lemma OneMoreBalances(t: Trace, e: Event, hop: u32, d: Datagram, waiting: nat)
    requires Balanced(t, hop, d, waiting)
    ensures Counts(e, InKind, hop, d) ==> Balanced(t + [e], hop, d, waiting + 1)
    ensures (Counts(e, OutKind, hop, d) || Counts(e, LostKind, hop, d)) && waiting >= 1 ==>
              Balanced(t + [e], hop, d, waiting - 1)
    ensures (forall k :: !Counts(e, k, hop, d)) ==> Balanced(t + [e], hop, d, waiting)
  {
    Snoc(t, e);
    assert !Counts(e, OutKind, hop, d) || !Counts(e, LostKind, hop, d);
  }

  // ---------- sending ----------

  lemma SendBalances(w: World, dgram: Datagram, hop: u32, x: u32, d: Datagram)
    requires Conserved(w.iface, w.trace)
    ensures Balanced(Send(w, dgram, hop).trace, x, d, Occurs(PendingFor(Send(w, dgram, hop).iface, x), d))
  {
    var i, before, t1 := w.iface, Occurs(PendingFor(w.iface, x), d), w.trace + [Submitted(dgram, hop, w.now)];
    var waiting := if x == hop && d == dgram then before + 1 else before;
    assert Balanced(w.trace, x, d, before);
    OneMoreBalances(w.trace, Submitted(dgram, hop, w.now), x, d, before);
    if hop in i.cache {
      OneMoreBalances(t1, Sent(dgram, hop, i.cache[hop].mac, w.now), x, d, waiting);
    } else {
      if hop !in i.pending {
        OneMoreBalances(t1, Requested(hop, w.now), x, d, waiting);
      }
      WaitsLonger(i, dgram, hop, x, d);
    }
  }

  lemma WaitsLonger(i: Interface, dgram: Datagram, hop: u32, x: u32, d: Datagram)
    requires hop !in i.cache
    ensures Occurs(PendingFor(SendDatagram(i, dgram, hop), x), d)
         == Occurs(PendingFor(i, x), d) + (if x == hop && d == dgram then 1 else 0)
  {
    if x == hop {
      assert PendingFor(SendDatagram(i, dgram, hop), x) == PendingFor(i, x) + [dgram];
      OccursSnoc(PendingFor(i, x), dgram, d);
    }
  }

  lemma SendConserves(w: World, dgram: Datagram, hop: u32)
    requires Conserved(w.iface, w.trace)
    ensures Conserved(Send(w, dgram, hop).iface, Send(w, dgram, hop).trace)
  {
    var w' := Send(w, dgram, hop);
    forall x: u32, d: Datagram ensures Balanced(w'.trace, x, d, Occurs(PendingFor(w'.iface, x), d)) {
      SendBalances(w, dgram, hop, x, d);
    }
  }

  lemma SendKeeps(w: World, dgram: Datagram, hop: u32)
    requires Inv(w)
    ensures Inv(Send(w, dgram, hop))
  {
    var i := w.iface;
    var t1 := w.trace + [Submitted(dgram, hop, w.now)];
    OneMore(w.trace, Submitted(dgram, hop, w.now), i.mac, i.ip, w.now);
    if hop in i.cache {
      OneMore(t1, Sent(dgram, hop, i.cache[hop].mac, w.now), i.mac, i.ip, w.now);
    } else if hop !in i.pending {
      OneMore(t1, Requested(hop, w.now), i.mac, i.ip, w.now);
    }
    SendConserves(w, dgram, hop);
  }

  // ---------- hearing ----------

  /** A run of sent datagrams after the address was announced. */
  lemma {:induction false} ManySent(t: Trace, dgrams: seq<Datagram>, hop: u32, dst: Mac, now: nat)
    requires TraceOk(t, now) && LastHeard(t, hop) == Some((dst, now))
    ensures TraceOk(AddSent(t, dgrams, hop, dst, now), now)
    ensures forall x: u32 :: LastHeard(AddSent(t, dgrams, hop, dst, now), x) == LastHeard(t, x)
    ensures forall x: u32 :: LastOpen(AddSent(t, dgrams, hop, dst, now), x) == LastOpen(t, x)
    decreases |dgrams|
  {
    if dgrams != [] {
      var n := |dgrams| - 1;
      ManySent(t, dgrams[..n], hop, dst, now);
      OneMore(AddSent(t, dgrams[..n], hop, dst, now), Sent(dgrams[n], hop, dst, now), 0, 0, now);
    }
  }

  lemma {:induction false} ManySentFrames(
    t: Trace, dgrams: seq<Datagram>, hop: u32, dst: Mac, mac: Mac, ip: u32, now: nat)
    ensures FramesOf(mac, ip, AddSent(t, dgrams, hop, dst, now)) == FramesOf(mac, ip, t) + IpFrames(mac, dst, dgrams)
    decreases |dgrams|
  {
    if dgrams == [] {
      assert FramesOf(mac, ip, t) + [] == FramesOf(mac, ip, t);
    } else {
      var n := |dgrams| - 1;
      ManySentFrames(t, dgrams[..n], hop, dst, mac, ip, now);
      Snoc(AddSent(t, dgrams[..n], hop, dst, now), Sent(dgrams[n], hop, dst, now));
      assert IpFrames(mac, dst, dgrams) == IpFrames(mac, dst, dgrams[..n]) + [IpFrame(mac, dst, dgrams[n])];
    }
  }

  lemma {:induction false} ManySentBalance(
    t: Trace, dgrams: seq<Datagram>, hop: u32, dst: Mac, at: nat, x: u32, d: Datagram, rest: nat)
    requires Balanced(t, x, d, (if x == hop then Occurs(dgrams, d) else 0) + rest)
    ensures Balanced(AddSent(t, dgrams, hop, dst, at), x, d, rest)
    decreases |dgrams|
  {
    if dgrams != [] {
      var n := |dgrams| - 1;
      var one := if x == hop && dgrams[n] == d then 1 else 0;
      ManySentBalance(t, dgrams[..n], hop, dst, at, x, d, one + rest);
      OneMoreBalances(AddSent(t, dgrams[..n], hop, dst, at), Sent(dgrams[n], hop, dst, at), x, d, one + rest);
    }
  }

  lemma {:induction false} ManyExpired(t: Trace, dgrams: seq<Datagram>, hop: u32, mac: Mac, ip: u32, now: nat)
    requires TraceOk(t, now)
    ensures var t' := AddExpired(t, dgrams, hop, now);
            && TraceOk(t', now) && FramesOf(mac, ip, t') == FramesOf(mac, ip, t)
            && (forall x: u32 :: LastHeard(t', x) == LastHeard(t, x) && LastOpen(t', x) == LastOpen(t, x))
    decreases |dgrams|
  {
    if dgrams != [] {
      var n := |dgrams| - 1;
      ManyExpired(t, dgrams[..n], hop, mac, ip, now);
      OneMore(AddExpired(t, dgrams[..n], hop, now), Expired(dgrams[n], hop, now), mac, ip, now);
    }
  }

  lemma {:induction false} ManyExpiredBalance(
    t: Trace, dgrams: seq<Datagram>, hop: u32, at: nat, x: u32, d: Datagram, rest: nat)
    requires Balanced(t, x, d, (if x == hop then Occurs(dgrams, d) else 0) + rest)
    ensures Balanced(AddExpired(t, dgrams, hop, at), x, d, rest)
    decreases |dgrams|
  {
    if dgrams != [] {
      var n := |dgrams| - 1;
      var one := if x == hop && dgrams[n] == d then 1 else 0;
      ManyExpiredBalance(t, dgrams[..n], hop, at, x, d, one + rest);
      OneMoreBalances(AddExpired(t, dgrams[..n], hop, at), Expired(dgrams[n], hop, at), x, d, one + rest);
    }
  }

  lemma ReplyConserves(w: World, m: ArpMessage, t': Trace, i': Interface)
    requires Conserved(w.iface, w.trace) && m.senderIp in w.iface.pending && i' == ReplyReceived(w.iface, m)
    requires t' == AddSent(w.trace + [Heard(m.senderIp, m.senderMac, true, w.now)],
                           w.iface.pending[m.senderIp].dgrams, m.senderIp, m.senderMac, w.now)
    ensures Conserved(i', t')
  {
    var e := Heard(m.senderIp, m.senderMac, true, w.now);
    forall x: u32, d: Datagram ensures Balanced(t', x, d, Occurs(PendingFor(i', x), d)) {
      assert Balanced(w.trace, x, d, Occurs(PendingFor(w.iface, x), d));
      OneMoreBalances(w.trace, e, x, d, Occurs(PendingFor(w.iface, x), d));
      ManySentBalance(w.trace + [e], w.iface.pending[m.senderIp].dgrams, m.senderIp, m.senderMac, w.now, x, d,
                      Occurs(PendingFor(i', x), d));
    }
  }

  /** The trace after a reply and the datagrams it releases. */
  lemma ReplyTrace(w: World, m: ArpMessage, t': Trace)
    requires Inv(w) && m.senderIp in w.iface.pending
    requires t' == AddSent(w.trace + [Heard(m.senderIp, m.senderMac, true, w.now)],
                           w.iface.pending[m.senderIp].dgrams, m.senderIp, m.senderMac, w.now)
    ensures TraceOk(t', w.now)
    ensures FramesOf(w.iface.mac, w.iface.ip, t') == ReplyReceived(w.iface, m).framesOut
    ensures forall x: u32 :: LastHeard(t', x) ==
              if x == m.senderIp then Some((m.senderMac, w.now)) else LastHeard(w.trace, x)
    ensures forall x: u32 :: LastOpen(t', x) == if x == m.senderIp then None else LastOpen(w.trace, x)
  {
    var i, e := w.iface, Heard(m.senderIp, m.senderMac, true, w.now);
    OneMore(w.trace, e, i.mac, i.ip, w.now);
    ManySent(w.trace + [e], i.pending[m.senderIp].dgrams, m.senderIp, m.senderMac, w.now);
    ManySentFrames(w.trace + [e], i.pending[m.senderIp].dgrams, m.senderIp, m.senderMac, i.mac, i.ip, w.now);
  }

  lemma HearConserves(w: World, f: Frame)
    requires Conserved(w.iface, w.trace) && Expected(w.iface, f)
    ensures Conserved(HearFrame(w, f).iface, HearFrame(w, f).trace)
  {
    var i, w' := w.iface, HearFrame(w, f);
    if AddressedTo(i, f) && f.body.ArpBody? && f.body.msg.targetIp == i.ip {
      var m := f.body.msg;
      if m.opcode == OPCODE_REPLY {
        ReplyConserves(w, m, w'.trace, w'.iface);
      } else {
        var e1, e2 := Heard(m.senderIp, m.senderMac, false, w.now), Replied(m.senderIp, m.senderMac, w.now);
        forall x: u32, d: Datagram ensures Balanced(w'.trace, x, d, Occurs(PendingFor(w'.iface, x), d)) {
          var waiting := Occurs(PendingFor(i, x), d);
          assert Balanced(w.trace, x, d, waiting);
          OneMoreBalances(w.trace, e1, x, d, waiting);
          OneMoreBalances(w.trace + [e1], e2, x, d, waiting);
        }
      }
    }
  }

  lemma ReplyKeeps(w: World, f: Frame)
    requires Inv(w) && Expected(w.iface, f) && AddressedTo(w.iface, f)
    requires f.body.ArpBody? && f.body.msg.targetIp == w.iface.ip && f.body.msg.opcode == OPCODE_REPLY
    ensures Inv(HearFrame(w, f))
  {
    var w' := HearFrame(w, f);
    ReplyTrace(w, f.body.msg, w'.trace);
    ReplyConserves(w, f.body.msg, w'.trace, w'.iface);
  }

  lemma RequestKeeps(w: World, f: Frame)
    requires Inv(w) && Expected(w.iface, f) && AddressedTo(w.iface, f)
    requires f.body.ArpBody? && f.body.msg.targetIp == w.iface.ip && f.body.msg.opcode != OPCODE_REPLY
    ensures Inv(HearFrame(w, f))
  {
    var i, m, w' := w.iface, f.body.msg, HearFrame(w, f);
    var e1, e2 := Heard(m.senderIp, m.senderMac, false, w.now), Replied(m.senderIp, m.senderMac, w.now);
    OneMore(w.trace, e1, i.mac, i.ip, w.now);
    OneMore(w.trace + [e1], e2, i.mac, i.ip, w.now);
    HearConserves(w, f);
  }

  lemma HearKeeps(w: World, f: Frame)
    requires Inv(w) && Expected(w.iface, f)
    ensures Inv(HearFrame(w, f))
  {
    if AddressedTo(w.iface, f) && f.body.ArpBody? && f.body.msg.targetIp == w.iface.ip {
      if f.body.msg.opcode == OPCODE_REPLY {
        ReplyKeeps(w, f);
      } else {
        RequestKeeps(w, f);
      }
    }
  }

  // ---------- time ----------

  lemma {:induction false} ExpiriesKeep(
    t: Trace, pending: map<u32, Pending>, keys: set<u32>, ms: nat, mac: Mac, ip: u32, now: nat)
    requires keys <= pending.Keys && TraceOk(t, now)
    ensures var t' := Expiries(t, pending, keys, ms, now);
            && TraceOk(t', now) && FramesOf(mac, ip, t') == FramesOf(mac, ip, t)
            && (forall x: u32 :: LastHeard(t', x) == LastHeard(t, x) && LastOpen(t', x) == LastOpen(t, x))
    decreases |keys|
  {
    if keys != {} {
      var k := Greatest(keys);
      ExpiriesKeep(t, pending, keys - {k}, ms, mac, ip, now);
      ManyExpired(Expiries(t, pending, keys - {k}, ms, now), pending[k].dgrams, k, mac, ip, now);
    }
  }

  /** What waits for `x` before the tick is what waits after it, or is recorded as expired. */
  lemma {:induction false} ExpiriesBalance(
    t: Trace, pending: map<u32, Pending>, keys: set<u32>, ms: nat, now: nat, x: u32, d: Datagram, rest: nat)
    requires keys <= pending.Keys
    requires Balanced(t, x, d,
               (if x in keys && Aged(pending[x].ttl, ms) <= 0 then Occurs(pending[x].dgrams, d) else 0) + rest)
    ensures Balanced(Expiries(t, pending, keys, ms, now), x, d, rest)
    decreases |keys|
  {
    if keys != {} {
      var k := Greatest(keys);
      var here := if x == k && Aged(pending[k].ttl, ms) <= 0 then Occurs(pending[k].dgrams, d) else 0;
      ExpiriesBalance(t, pending, keys - {k}, ms, now, x, d, here + rest);
      if Aged(pending[k].ttl, ms) <= 0 {
        ManyExpiredBalance(Expiries(t, pending, keys - {k}, ms, now), pending[k].dgrams, k, now, x, d, rest);
      }
    }
  }

  lemma {:induction false} TraceLater(t: Trace, now: nat, later: nat)
    requires TraceOk(t, now) && now <= later
    ensures TraceOk(t, later)
    decreases |t|
  {
    if t != [] {
      TraceLater(Init(t), now, later);
    }
  }

  /** Whatever the tick, what leaves the waiting lists is recorded as expired. */
  lemma TickConserves(w: World, ms: nat)
    requires Conserved(w.iface, w.trace)
    ensures Conserved(PassTime(w, ms).iface, PassTime(w, ms).trace)
  {
    var i, w' := w.iface, PassTime(w, ms);
    forall x: u32, d: Datagram ensures Balanced(w'.trace, x, d, Occurs(PendingFor(w'.iface, x), d)) {
      assert Balanced(w.trace, x, d, Occurs(PendingFor(i, x), d));
      ExpiriesBalance(w.trace, i.pending, i.pending.Keys, ms, w'.now, x, d, Occurs(PendingFor(w'.iface, x), d));
    }
  }

  lemma CacheAges(i: Interface, t: Trace, now: nat, ms: nat)
    requires CacheOk(i, t, now)
    ensures CacheOk(Tick(i, ms), t, now + ms) <==> forall ip :: ip in i.cache ==> AgesRightly(i.cache[ip].ttl, ms)
  {
    var i' := Tick(i, ms);
    forall ip | ip in i.cache
      ensures AgesRightly(i.cache[ip].ttl, ms) <==> (ip in i'.cache ==> i'.cache[ip].ttl == i.cache[ip].ttl - ms)
    {
      AgedRightlyIff(i.cache[ip].ttl, ms);
    }
  }

  lemma PendingAges(i: Interface, t: Trace, now: nat, ms: nat)
    requires PendingOk(i, t, now)
    ensures PendingOk(Tick(i, ms), t, now + ms) <==> forall ip :: ip in i.pending ==> AgesRightly(i.pending[ip].ttl, ms)
  {
    var i' := Tick(i, ms);
    forall ip: u32 | ip in i.pending
      ensures AgesRightly(i.pending[ip].ttl, ms) <==> (ip in i'.pending <==> ms < i.pending[ip].ttl)
      ensures ms < i.pending[ip].ttl ==> ip in i'.pending && i'.pending[ip].ttl == i.pending[ip].ttl - ms
    {
      AgedRightlyIff(i.pending[ip].ttl, ms);
    }
  }

  lemma SameTimes(i: Interface, t: Trace, t': Trace, now: nat)
    requires forall x: u32 :: LastHeard(t', x) == LastHeard(t, x) && LastOpen(t', x) == LastOpen(t, x)
    ensures CacheOk(i, t', now) <==> CacheOk(i, t, now)
    ensures PendingOk(i, t', now) <==> PendingOk(i, t, now)
  {
  }

  /** A tick keeps the invariant exactly when it erases what it should. */
  lemma TickKeeps(w: World, ms: nat)
    requires Inv(w)
    ensures Inv(PassTime(w, ms)) <==> AllAgeRightly(w.iface, ms)
  {
    TickTrace(w, PassTime(w, ms), ms);
    TickTimes(w.iface, w.trace, w.now, ms, PassTime(w, ms).trace);
    TickConserves(w, ms);
  }

  lemma TickTrace(w: World, w': World, ms: nat)
    requires TraceOk(w.trace, w.now) && w' == PassTime(w, ms)
    ensures TraceOk(w'.trace, w'.now)
    ensures FramesOf(w.iface.mac, w.iface.ip, w'.trace) == FramesOf(w.iface.mac, w.iface.ip, w.trace)
    ensures forall x: u32 ::
              LastHeard(w'.trace, x) == LastHeard(w.trace, x) && LastOpen(w'.trace, x) == LastOpen(w.trace, x)
  {
    TraceLater(w.trace, w.now, w'.now);
    ExpiriesKeep(w.trace, w.iface.pending, w.iface.pending.Keys, ms, w.iface.mac, w.iface.ip, w'.now);
  }

  lemma TickTimes(i: Interface, t: Trace, now: nat, ms: nat, t': Trace)
    requires CacheOk(i, t, now) && PendingOk(i, t, now)
    requires forall x: u32 :: LastHeard(t', x) == LastHeard(t, x) && LastOpen(t', x) == LastOpen(t, x)
    ensures CacheOk(Tick(i, ms), t', now + ms) && PendingOk(Tick(i, ms), t', now + ms) <==> AllAgeRightly(i, ms)
  {
    SameTimes(Tick(i, ms), t, t', now + ms);
    CacheAges(i, t, now, ms);
    PendingAges(i, t, now, ms);
  }

  // ---------- every run ----------

  datatype Call = SendCall(dgram: Datagram, hop: u32) | FrameCall(frame: Frame) | TickCall(ms: nat)

  predicate LegalCall(w: World, c: Call) {
    c.FrameCall? ==> Expected(w.iface, c.frame)
  }

  ghost function Apply(w: World, c: Call): World
    requires LegalCall(w, c)
  {
    match c
    case SendCall(dgram, hop) => Send(w, dgram, hop)
    case FrameCall(frame) => HearFrame(w, frame)
    case TickCall(ms) => PassTime(w, ms)
  }

  ghost predicate IsRun(states: seq<World>, calls: seq<Call>, mac: Mac, ip: u32) {
    && |states| == |calls| + 1 && states[0] == World(NewInterface(mac, ip), 0, [])
    && forall i :: 0 <= i < |calls| ==> LegalCall(states[i], calls[i]) && states[i + 1] == Apply(states[i], calls[i])
  }

  /** The trace tells the frames queued. */
  ghost predicate Told(w: World) {
    w.iface.framesOut == FramesOf(w.iface.mac, w.iface.ip, w.trace)
  }

  lemma SendIsTold(w: World, dgram: Datagram, hop: u32)
    requires Told(w)
    ensures Told(Send(w, dgram, hop))
  {
    var i, t1 := w.iface, w.trace + [Submitted(dgram, hop, w.now)];
    OneMore(w.trace, Submitted(dgram, hop, w.now), i.mac, i.ip, w.now);
    if hop in i.cache {
      OneMore(t1, Sent(dgram, hop, i.cache[hop].mac, w.now), i.mac, i.ip, w.now);
    } else if hop !in i.pending {
      OneMore(t1, Requested(hop, w.now), i.mac, i.ip, w.now);
    }
  }

  lemma HearIsTold(w: World, f: Frame)
    requires Told(w) && Expected(w.iface, f)
    ensures Told(HearFrame(w, f))
  {
    var i := w.iface;
    if AddressedTo(i, f) && f.body.ArpBody? && f.body.msg.targetIp == i.ip {
      var m := f.body.msg;
      var e := Heard(m.senderIp, m.senderMac, m.opcode == OPCODE_REPLY, w.now);
      OneMore(w.trace, e, i.mac, i.ip, w.now);
      if m.opcode == OPCODE_REPLY {
        ManySentFrames(w.trace + [e], i.pending[m.senderIp].dgrams, m.senderIp, m.senderMac, i.mac, i.ip, w.now);
      } else {
        OneMore(w.trace + [e], Replied(m.senderIp, m.senderMac, w.now), i.mac, i.ip, w.now);
      }
    }
  }

  lemma {:induction false} ExpiredFrames(t: Trace, dgrams: seq<Datagram>, hop: u32, mac: Mac, ip: u32, at: nat)
    ensures FramesOf(mac, ip, AddExpired(t, dgrams, hop, at)) == FramesOf(mac, ip, t)
    decreases |dgrams|
  {
    if dgrams != [] {
      var n := |dgrams| - 1;
      ExpiredFrames(t, dgrams[..n], hop, mac, ip, at);
      OneMore(AddExpired(t, dgrams[..n], hop, at), Expired(dgrams[n], hop, at), mac, ip, at);
    }
  }

  lemma {:induction false} ExpiriesFrames(
    t: Trace, pending: map<u32, Pending>, keys: set<u32>, ms: nat, mac: Mac, ip: u32, at: nat)
    requires keys <= pending.Keys
    ensures FramesOf(mac, ip, Expiries(t, pending, keys, ms, at)) == FramesOf(mac, ip, t)
    decreases |keys|
  {
    if keys != {} {
      var k := Greatest(keys);
      ExpiriesFrames(t, pending, keys - {k}, ms, mac, ip, at);
      ExpiredFrames(Expiries(t, pending, keys - {k}, ms, at), pending[k].dgrams, k, mac, ip, at);
    }
  }

  /**
   In every state of every run, whatever the ticks, each datagram is exactly once
   sent, waiting or expired, and the frames queued are those of the events
   recorded.
   */
  lemma {:induction false} RunConserves(states: seq<World>, calls: seq<Call>, mac: Mac, ip: u32, k: nat)
    requires IsRun(states, calls, mac, ip) && k < |states|
    ensures Conserved(states[k].iface, states[k].trace) && Told(states[k])
    decreases k
  {
    if k > 0 {
      RunConserves(states, calls, mac, ip, k - 1);
      var w := states[k - 1];
      match calls[k - 1]
      case SendCall(dgram, hop) =>
        SendConserves(w, dgram, hop);
        SendIsTold(w, dgram, hop);
      case FrameCall(frame) =>
        HearConserves(w, frame);
        HearIsTold(w, frame);
      case TickCall(ms) =>
        TickConserves(w, ms);
        ExpiriesFrames(w.trace, w.iface.pending, w.iface.pending.Keys, ms, w.iface.mac, w.iface.ip, w.now + ms);
    }
  }

  /** The ticks among the first `k` calls erase exactly what is due. */
  ghost predicate RightTicks(states: seq<World>, calls: seq<Call>, k: nat)
    requires |states| == |calls| + 1 && k <= |calls|
  {
    forall i :: 0 <= i < k && calls[i].TickCall? ==> AllAgeRightly(states[i].iface, calls[i].ms)
  }

  /** With such ticks the trace is also legal and tells the frames sent. */
  lemma {:induction false} RunKeeps(states: seq<World>, calls: seq<Call>, mac: Mac, ip: u32, k: nat)
    requires IsRun(states, calls, mac, ip) && k < |states| && RightTicks(states, calls, k)
    ensures Inv(states[k])
    decreases k
  {
    if k > 0 {
      RunKeeps(states, calls, mac, ip, k - 1);
      var w := states[k - 1];
      match calls[k - 1]
      case SendCall(dgram, hop) => SendKeeps(w, dgram, hop);
      case FrameCall(frame) => HearKeeps(w, frame);
      case TickCall(ms) => TickKeeps(w, ms);
    }
  }

  // ---------- what a legal trace means ----------

  lemma {:induction false} TraceAt(t: Trace, now: nat, j: nat)
    requires TraceOk(t, now) && j < |t|
    ensures TraceOk(t[..j], now) && EventOk(t[..j], t[j])
    decreases |t|
  {
    if j == |t| - 1 {
      assert t[..j] == Init(t);
    } else {
      TraceAt(Init(t), now, j);
      assert Init(t)[..j] == t[..j];
    }
  }

  /** A request that no reply has answered since leaves an open request at least as recent. */
  lemma {:induction false} StillOpen(t: Trace, now: nat, i: nat, ip: u32)
    requires TraceOk(t, now) && i < |t| && t[i].Requested? && t[i].ip == ip
    requires forall k :: i < k < |t| ==> !(t[k].Heard? && t[k].reply && t[k].ip == ip)
    ensures LastOpen(t, ip).Some? && LastOpen(t, ip).value >= t[i].at
    decreases |t|
  {
    if i < |t| - 1 {
      assert forall k :: 0 <= k < |t| - 1 ==> Init(t)[k] == t[k];
      StillOpen(Init(t), now, i, ip);
    }
  }

  /** Two requests for one address with no reply between them are at least 5 s apart. */
  lemma RequestsApart(w: World, i: nat, j: nat)
    requires Inv(w) && i < j < |w.trace| && w.trace[i].Requested? && w.trace[j].Requested?
    requires w.trace[i].ip == w.trace[j].ip
    requires forall k :: i < k < j ==> !(w.trace[k].Heard? && w.trace[k].reply && w.trace[k].ip == w.trace[i].ip)
    ensures w.trace[j].at - w.trace[i].at >= ARP_PENDING_TTL
  {
    TraceAt(w.trace, w.now, j);
    StillOpen(w.trace[..j], w.now, i, w.trace[i].ip);
  }

  /** Every datagram goes to the address last announced for its next hop, less than 30 s before. */
  lemma SentToLastAnnounced(w: World, j: nat)
    requires Inv(w) && j < |w.trace| && w.trace[j].Sent?
    ensures exists i :: 0 <= i < j && w.trace[i].Heard? && w.trace[i].ip == w.trace[j].hop
              && w.trace[i].mac == w.trace[j].mac && w.trace[j].at - w.trace[i].at < ARP_CACHE_TTL
              && forall k :: i < k < j ==> !(w.trace[k].Heard? && w.trace[k].ip == w.trace[j].hop)
  {
    TraceAt(w.trace, w.now, j);
    var i := FindHeard(w.trace[..j], w.trace[j].hop);
  }

  lemma {:induction false} FindHeard(t: Trace, ip: u32) returns (i: nat)
    requires LastHeard(t, ip).Some?
    ensures i < |t| && t[i].Heard? && t[i].ip == ip && LastHeard(t, ip) == Some((t[i].mac, t[i].at))
    ensures forall k :: i < k < |t| ==> !(t[k].Heard? && t[k].ip == ip)
    decreases |t|
  {
    i := |t| - 1;
    if !(t[i].Heard? && t[i].ip == ip) {
      i := FindHeard(Init(t), ip);
      assert forall k :: 0 <= k < |t| - 1 ==> Init(t)[k] == t[k];
    }
  }
}
