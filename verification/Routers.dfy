/** A router: longest-prefix match (RFC 1812 section 5.2.4.3) between network interfaces. */
module Routers {
  import opened Numbers
  import opened Buffers
  import opened Ipv4Codec
  import opened NetworkInterfaces

  /** A forwarding rule; no next hop means that the network is directly attached. */
  datatype Route = Route(dst: u32, len: u8, hop: Option<u32>, port: nat)

  // ---------- the mask test ----------

  /** The bitwise and of two unsigned numbers of `width` bits. */
  function BitAnd(a: nat, b: nat, width: nat): (r: nat) {
    if width == 0 then 0 else 2 * BitAnd(a / 2, b / 2, width - 1) + (a % 2) * (b % 2)
  }

  /** The complement of a 32-bit number. */
  function BitNot(a: u32): (r: u32) {
    TWO32 - 1 - a
  }

  /** The network mask: the complement of one less than a one shifted to the end of the prefix. */
  function NetMask(len: u8): (r: u32)
    requires 1 <= len <= 32
  {
    PowerBelow(32 - len);
    BitNot(Pow2(32 - len) - 1)
  }

  function Masked(dst: u32, len: u8): nat
    requires 1 <= len <= 32
  {
    BitAnd(dst, NetMask(len), 32)
  }

  lemma {:induction false} PowerAtMost(k: nat, j: nat)
    requires k <= j
    ensures Pow2(k) <= Pow2(j)
    decreases j
  {
    if k < j {
      PowerAtMost(k, j - 1);
    }
  }

  lemma PowerBelow(k: nat)
    requires k < 32
    ensures Pow2(32) == TWO32 && Pow2(k) < TWO32
  {
    PowerAtMost(k, 31);
    WordPower();
  }

  lemma WordPower()
    ensures Pow2(32) == TWO32
  {
    assert Pow2(8) == 0x100 && Pow2(16) == TWO16 && Pow2(24) == 0x100_0000;
  }

  /** A mask of all bits keeps a number. */
  lemma {:induction false} AllBits(x: nat, width: nat)
    requires x < Pow2(width)
    ensures BitAnd(x, Pow2(width) - 1, width) == x
    decreases width
  {
    if width > 0 {
      var p := Pow2(width - 1);
      AllBits(x / 2, width - 1);
      assert (2 * p - 1) / 2 == p - 1 && (2 * p - 1) % 2 == 1;
    }
  }

  /** A mask of the bits from `k` up to `width` clears the low `k` bits. */
  lemma {:induction false} HighBits(x: nat, k: nat, width: nat)
    requires k <= width && x < Pow2(width) && Pow2(k) <= Pow2(width)
    ensures BitAnd(x, Pow2(width) - Pow2(k), width) == x - x % Pow2(k)
    decreases width
  {
    if k == 0 {
      AllBits(x, width);
    } else {
      var p, q := Pow2(width - 1), Pow2(k - 1);
      HighBits(x / 2, k - 1, width - 1);
      EvenAnd(x, p - q, width);
      HalfRemainder(x, q);
    }
  }

  lemma EvenAnd(x: nat, b: nat, width: nat)
    requires width > 0
    ensures BitAnd(x, 2 * b, width) == 2 * BitAnd(x / 2, b, width - 1)
  {
    assert (2 * b) / 2 == b && (2 * b) % 2 == 0;
  }

  lemma HalfRemainder(x: nat, q: nat)
    requires q >= 1
    ensures 2 * (x / 2 - (x / 2) % q) == x - x % (2 * q)
  {
    var h := x / 2;
    var d, m := h / q, h % q;
    assert x == d * (2 * q) + (2 * m + x % 2);
    RemainderIs(x, 2 * q, d, 2 * m + x % 2);
  }

  lemma RemainderIs(x: nat, p: nat, d: nat, m: nat)
    requires p >= 1 && m < p && x == d * p + m
    ensures x % p == m
  {
    SmallMultiple(x / p - d, p, m - x % p);
  }

  lemma SmallMultiple(e: int, p: int, r: int)
    requires e * p == r && -p < r < p
    ensures r == 0
  {
    MultipleBound(e, p);
  }

  lemma MultipleBound(e: int, p: int)
    requires p >= 1
    ensures e >= 1 ==> e * p >= p
    ensures e <= -1 ==> e * p <= -p
  {
  }

  lemma MaskedClears(dst: u32, len: u8)
    requires 1 <= len <= 32
    ensures Masked(dst, len) == dst - dst % Pow2(32 - len)
  {
    PowerBelow(32 - len);
    HighBits(dst, 32 - len, 32);
  }

  predicate Matches(r: Route, dst: u32)
    requires r.len <= 32
  {
    r.len == 0 || Masked(dst, r.len) == r.dst
  }

  /** A table whose prefixes are no longer than 32 bits. */
  predicate ValidTable(table: seq<Route>) {
    forall k :: 0 <= k < |table| ==> table[k].len <= 32
  }

  /** The mask test compares the leading bits, for routes whose other bits are zero. */
  lemma MaskComparesPrefixes(r: Route, dst: u32)
    requires 1 <= r.len <= 32 && r.dst % Pow2(32 - r.len) == 0
    ensures Matches(r, dst) <==> dst / Pow2(32 - r.len) == r.dst / Pow2(32 - r.len)
  {
    MaskedClears(dst, r.len);
    PrefixesAgree(dst, r.dst, Pow2(32 - r.len));
  }

  lemma PrefixesAgree(a: nat, b: nat, p: nat)
    requires p >= 1 && b % p == 0
    ensures a - a % p == b <==> a / p == b / p
  {
    assert b == b / p * p && a - a % p == a / p * p;
    if a - a % p == b {
      SameFactor(a / p, b / p, p);
    }
  }

  lemma SameFactor(q: nat, r: nat, p: nat)
    requires p >= 1 && q * p == r * p
    ensures q == r
  {
    assert (q - r) * p == 0;
  }

  // ---------- choosing a route ----------

  /** Which entries match. */
  function Hits(table: seq<Route>, dst: u32): (hits: seq<bool>)
    requires ValidTable(table)
    ensures |hits| == |table| && forall k :: 0 <= k < |table| ==> hits[k] == Matches(table[k], dst)
  {
    seq(|table|, k requires 0 <= k < |table| => Matches(table[k], dst))
  }

  /** The loop's variables: the best entry so far, its length, and whether any matched. */
  datatype Choice = Choice(best: nat, longest: nat, found: bool)

  /** The loop over the first `k` entries. */
  function Scan(table: seq<Route>, hits: seq<bool>, k: nat): (c: Choice)
    requires k <= |table| == |hits|
  {
    if k == 0 then Choice(0, 0, false)
    else
      var c := Scan(table, hits, k - 1);
      if !hits[k - 1] then c
      else if table[k - 1].len > c.longest then Choice(k - 1, table[k - 1].len, true)
      else c.(found := true)
  }

  /** Entry `b` is the earliest of the longest that match, among the first `k`. */
  ghost predicate IsBest(table: seq<Route>, hits: seq<bool>, k: nat, b: nat)
    requires k <= |table| == |hits|
  {
    && b < k && hits[b]
    && forall j :: 0 <= j < k && hits[j] ==>
         table[j].len < table[b].len || (table[j].len == table[b].len && b <= j)
  }

  /** What the loop knows. */
  lemma {:induction false} ScanKnows(table: seq<Route>, hits: seq<bool>, k: nat)
    requires k <= |table| == |hits|
    ensures var c := Scan(table, hits, k);
            && (c.found <==> exists j :: 0 <= j < k && hits[j])
            && (c.longest > 0 ==> IsBest(table, hits, k, c.best) && table[c.best].len == c.longest && c.found)
            && (c.longest == 0 ==> c.best == 0 && forall j :: 0 <= j < k && hits[j] ==> table[j].len == 0)
    decreases k
  {
    if k > 0 {
      ScanKnows(table, hits, k - 1);
    }
  }

  /** Only default routes match, and the first entry is not one of them. */
  predicate DefaultOutOfPlace(table: seq<Route>, hits: seq<bool>)
    requires |table| == |hits|
  {
    && (exists j :: 0 <= j < |hits| && hits[j]) && table[0].len != 0
    && forall j :: 0 <= j < |hits| && hits[j] ==> table[j].len == 0
  }

  function Chosen(table: seq<Route>, dst: u32): Choice
    requires ValidTable(table)
  {
    Scan(table, Hits(table, dst), |table|)
  }

  /** The loop chooses the earliest of the longest matching routes exactly unless a default route is out of place. */
  lemma ChoosesBestIff(table: seq<Route>, dst: u32)
    requires ValidTable(table)
    ensures var hits := Hits(table, dst);
            && (Chosen(table, dst).found <==> exists j :: 0 <= j < |table| && hits[j])
            && ((Chosen(table, dst).found ==> IsBest(table, hits, |table|, Chosen(table, dst).best))
                <==> !DefaultOutOfPlace(table, hits))
  {
    ScanKnows(table, Hits(table, dst), |table|);
  }

  /** With any default route first, every destination gets its best route. */
  lemma DefaultFirstIsEnough(table: seq<Route>, dst: u32)
    requires ValidTable(table)
    requires (exists j :: 0 <= j < |table| && table[j].len == 0) ==> table[0].len == 0
    ensures Chosen(table, dst).found ==> IsBest(table, Hits(table, dst), |table|, Chosen(table, dst).best)
  {
    ChoosesBestIff(table, dst);
  }

  /** The first entry, for 10.0.0.0/8, and a default route after it. */
  const SECOND_DEFAULT: seq<Route> := [Route(0x0a00_0000, 8, None, 0), Route(0, 0, None, 1)]

  lemma FirstDoesNotMatch()
    ensures !Matches(SECOND_DEFAULT[0], 0x0102_0304)
  {
    assert Pow2(24) == 0x100_0000 by { assert Pow2(8) == 0x100 && Pow2(16) == TWO16; }
    MaskComparesPrefixes(SECOND_DEFAULT[0], 0x0102_0304);
  }

  /** A default route listed second is not used: the packet leaves by the first entry, which does not match. */
  lemma SecondDefaultIsMissed()
    ensures ValidTable(SECOND_DEFAULT)
    ensures Chosen(SECOND_DEFAULT, 0x0102_0304).found && Chosen(SECOND_DEFAULT, 0x0102_0304).best == 0
    ensures !Matches(SECOND_DEFAULT[0], 0x0102_0304)
  {
    FirstDoesNotMatch();
    ScanTwo(SECOND_DEFAULT, Hits(SECOND_DEFAULT, 0x0102_0304));
  }

  lemma ScanTwo(table: seq<Route>, hits: seq<bool>)
    requires |table| == |hits| == 2 && table[1].len == 0 && !hits[0] && hits[1]
    ensures Scan(table, hits, 2).found && Scan(table, hits, 2).best == 0
  {
    assert Scan(table, hits, 1) == Choice(0, 0, false);
  }

  // ---------- forwarding ----------

  /** An interface and the datagrams it has received. */
  datatype Port = Port(iface: Interface, inbox: seq<Datagram>)

  datatype Forward = Drop | Out(port: nat, hop: u32, dgram: Datagram)

  /** Routes whose interface exists. */
  predicate ValidPorts(table: seq<Route>, n: nat) {
    forall k :: 0 <= k < |table| ==> table[k].port < n
  }

  /** One hop less to live; gone when none is left or nothing matches. */
  function Decide(table: seq<Route>, d: Datagram): (f: Forward)
    requires ValidTable(table)
  {
    var ttl := if d.header.ttl > 0 then d.header.ttl - 1 else 0;
    if ttl == 0 || table == [] || !Chosen(table, d.header.dst).found then Drop
    else
      ChoiceInRange(table, Hits(table, d.header.dst), |table|);
      var best := table[Chosen(table, d.header.dst).best];
      Out(best.port, if best.hop.Some? then best.hop.value else d.header.dst,
          d.(header := d.header.(ttl := ttl)))
  }

  lemma {:induction false} ChoiceInRange(table: seq<Route>, hits: seq<bool>, k: nat)
    requires k <= |table| == |hits|
    ensures Scan(table, hits, k).best < |table| || table == []
    decreases k
  {
    if k > 0 {
      ChoiceInRange(table, hits, k - 1);
    }
  }

  /** A datagram is dropped exactly when its time is up or no route matches; else only its time to live changes. */
  lemma DecideIff(table: seq<Route>, d: Datagram)
    requires ValidTable(table)
    ensures Decide(table, d).Drop? <==>
            d.header.ttl <= 1 || forall k :: 0 <= k < |table| ==> !Matches(table[k], d.header.dst)
    ensures Decide(table, d).Out? ==>
            Decide(table, d).dgram == d.(header := d.header.(ttl := d.header.ttl - 1))
  {
    ScanKnows(table, Hits(table, d.header.dst), |table|);
  }

  function Deliver(ports: seq<Port>, f: Forward): (r: seq<Port>)
    requires f.Out? ==> f.port < |ports|
    ensures |r| == |ports|
  {
    match f
    case Drop => ports
    case Out(p, hop, dgram) => ports[p := ports[p].(iface := SendDatagram(ports[p].iface, dgram, hop))]
  }

  lemma DecideInRange(table: seq<Route>, d: Datagram, n: nat)
    requires ValidTable(table) && ValidPorts(table, n)
    ensures Decide(table, d).Out? ==> Decide(table, d).port < n
  {
    ChoiceInRange(table, Hits(table, d.header.dst), |table|);
  }

  function RouteOne(table: seq<Route>, ports: seq<Port>, d: Datagram): (r: seq<Port>)
    requires ValidTable(table) && ValidPorts(table, |ports|)
    ensures |r| == |ports|
  {
    DecideInRange(table, d, |ports|);
    Deliver(ports, Decide(table, d))
  }

  /** Routes a list of datagrams, one after the other. */
  function RouteList(table: seq<Route>, ports: seq<Port>, ds: seq<Datagram>): (r: seq<Port>)
    requires ValidTable(table) && ValidPorts(table, |ports|)
    ensures |r| == |ports|
    decreases |ds|
  {
    if ds == [] then ports else RouteList(table, RouteOne(table, ports, ds[0]), ds[1..])
  }

  /** What leaves by one port: the datagrams decided for it, in order. */
  function SendAll(i: Interface, table: seq<Route>, ds: seq<Datagram>, port: nat): Interface
    requires ValidTable(table)
    decreases |ds|
  {
    if ds == [] then i
    else
      var f := Decide(table, ds[0]);
      SendAll(if f.Out? && f.port == port then SendDatagram(i, f.dgram, f.hop) else i, table, ds[1..], port)
  }

  /** Each datagram is sent once, on the port decided for it, and on no other; inboxes are not touched. */
  lemma {:induction false} RoutedOncePerPort(table: seq<Route>, ports: seq<Port>, ds: seq<Datagram>, port: nat)
    requires ValidTable(table) && ValidPorts(table, |ports|) && port < |ports|
    ensures RouteList(table, ports, ds)[port] == ports[port].(iface := SendAll(ports[port].iface, table, ds, port))
    decreases |ds|
  {
    if ds != [] {
      RoutedOncePerPort(table, RouteOne(table, ports, ds[0]), ds[1..], port);
    }
  }

  // ---------- the imperative router ----------

  /** An interface that keeps what it receives until the owner takes it. */
  class AsyncNetworkInterface {
    const iface: NetworkInterface
    var inbox: seq<Datagram>

    ghost function View(): Port
      reads this, iface
    {
      Port(iface.View(), inbox)
    }

    constructor (mac: Mac, ip: u32)
      ensures fresh(iface) && View() == Port(NewInterface(mac, ip), [])
    {
      iface := new NetworkInterface(mac, ip);
      inbox := [];
    }

    method Receive(f: Frame)
      requires Expected(iface.View(), f)
      modifies this, iface
      ensures var (i, r) := ReceiveFrame(old(iface.View()), f);
              View() == Port(i, if r.Some? then old(inbox) + [r.value] else old(inbox))
    {
      var r := iface.Receive(f);
      if r.Some? {
        inbox := inbox + [r.value];
      }
    }
  }

  /** The inboxes from port `k` on, one after the other. */
  function Inboxes(ports: seq<Port>, k: nat): seq<Datagram>
    requires k <= |ports|
    decreases |ports| - k
  {
    if k == |ports| then [] else ports[k].inbox + Inboxes(ports, k + 1)
  }

  /** The ports with nothing left in their inboxes. */
  function Cleared(ports: seq<Port>): (r: seq<Port>)
    ensures |r| == |ports| && forall j :: 0 <= j < |r| ==> r[j] == ports[j].(inbox := [])
  {
    seq(|ports|, j requires 0 <= j < |ports| => ports[j].(inbox := []))
  }

  /** Routing does not look at inboxes. */
  lemma RouteOneCleared(table: seq<Route>, ports: seq<Port>, d: Datagram)
    requires ValidTable(table) && ValidPorts(table, |ports|)
    ensures Cleared(RouteOne(table, ports, d)) == RouteOne(table, Cleared(ports), d)
    ensures forall j :: 0 <= j < |ports| ==> RouteOne(table, ports, d)[j].inbox == ports[j].inbox
  {
    DecideInRange(table, d, |ports|);
  }

  lemma {:induction false} InboxesSame(a: seq<Port>, b: seq<Port>, k: nat)
    requires k <= |a| == |b| && forall j :: k <= j < |a| ==> a[j].inbox == b[j].inbox
    ensures Inboxes(a, k) == Inboxes(b, k)
    decreases |a| - k
  {
    if k < |a| {
      InboxesSame(a, b, k + 1);
    }
  }

  lemma InboxesSkip(ports: seq<Port>, k: nat)
    requires k < |ports| && ports[k].inbox == []
    ensures Inboxes(ports, k) == Inboxes(ports, k + 1)
  {
  }

  /** One datagram taken from the front of port `k` and routed. */
  lemma RoutedFront(table: seq<Route>, before: seq<Port>, after: seq<Port>, k: nat)
    requires ValidTable(table) && ValidPorts(table, |before|) && k < |before| && before[k].inbox != []
    requires var routed := RouteOne(table, before, before[k].inbox[0]);
             after == routed[k := routed[k].(inbox := before[k].inbox[1..])]
    ensures RouteList(table, Cleared(after), Inboxes(after, k)) == RouteList(table, Cleared(before), Inboxes(before, k))
  {
    var d := before[k].inbox[0];
    RouteOneCleared(table, before, d);
    InboxesSame(before, after, k + 1);
    HeadOfSum(before[k].inbox, Inboxes(before, k + 1));
    assert Cleared(after) == RouteOne(table, Cleared(before), d);
  }

  lemma HeadOfSum(a: seq<Datagram>, b: seq<Datagram>)
    requires a != []
    ensures a + b != [] && (a + b)[0] == a[0] && (a + b)[1..] == a[1..] + b
  {
  }

  /** The ports once everything received from port `k` on is routed. */
  ghost function Outcome(table: seq<Route>, ports: seq<Port>, k: nat): seq<Port>
    requires ValidTable(table) && ValidPorts(table, |ports|) && k <= |ports|
  {
    RouteList(table, Cleared(ports), Inboxes(ports, k))
  }

  /** The first `n` inboxes are empty. */
  ghost predicate EmptyBelow(ports: seq<Port>, n: nat) {
    n <= |ports| && forall k :: 0 <= k < n ==> ports[k].inbox == []
  }

  lemma EmptyStep(before: seq<Port>, after: seq<Port>, k: nat)
    requires EmptyBelow(before, k) && |after| == |before| && k < |after| && after[k].inbox == []
    requires forall j :: 0 <= j < k ==> after[j].inbox == before[j].inbox
    ensures EmptyBelow(after, k + 1)
  {
  }

  /** With empty inboxes there is nothing to route. */
  lemma NothingLeft(table: seq<Route>, ports: seq<Port>)
    requires ValidTable(table) && ValidPorts(table, |ports|)
    requires EmptyBelow(ports, |ports|)
    ensures Outcome(table, ports, |ports|) == ports
  {
    assert Cleared(ports) == ports;
  }

  class Router {
    var interfaces: seq<AsyncNetworkInterface>
    var table: seq<Route>

    ghost function Parts(): set<object>
      reads this
    {
      (set a | a in interfaces :: a as object) + (set a | a in interfaces :: a.iface as object)
    }

    ghost predicate Valid()
      reads this
    {
      && ValidTable(table) && ValidPorts(table, |interfaces|)
      && (forall i, j :: 0 <= i < j < |interfaces| ==>
            interfaces[i] != interfaces[j] && interfaces[i].iface != interfaces[j].iface)
    }

    ghost function Ports(): (p: seq<Port>)
      reads this, Parts()
      ensures |p| == |interfaces| && forall k :: 0 <= k < |p| ==> p[k] == interfaces[k].View()
    {
      seq(|interfaces|, k requires 0 <= k < |interfaces| reads this, Parts() =>
            assert interfaces[k] in interfaces; interfaces[k].View())
    }

    /** The loop over the table. */
    method ChooseRoute(dst: u32) returns (best: nat, found: bool)
      requires Valid() && table != []
      ensures best == Chosen(table, dst).best < |table| && found == Chosen(table, dst).found
    {
      best, found := 0, false;
      var longest := 0;
      for k := 0 to |table|
        invariant best < |table| && Choice(best, longest, found) == Scan(table, Hits(table, dst), k)
      {
        if Matches(table[k], dst) {
          found := true;
          if table[k].len > longest {
            longest, best := table[k].len, k;
          }
        }
      }
    }

    method RouteOneDatagram(d: Datagram)
      requires Valid()
      modifies set a | a in interfaces :: a.iface
      ensures Valid() && Ports() == RouteOne(table, old(Ports()), d)
    {
      var ttl := if d.header.ttl > 0 then d.header.ttl - 1 else 0;
      if ttl == 0 || table == [] {
        return;
      }
      var best, found := ChooseRoute(d.header.dst);
      if found {
        var route := table[best];
        var hop := if route.hop.Some? then route.hop.value else d.header.dst;
        assert interfaces[route.port] in interfaces;
        interfaces[route.port].iface.Send(d.(header := d.header.(ttl := ttl)), hop);
      }
    }

    /** Routes the front of an inbox, then takes it away. */
    method RouteFront(k: nat)
      requires Valid() && k < |interfaces| && interfaces[k].inbox != []
      modifies Parts()
      ensures Valid() && interfaces == old(interfaces) && table == old(table)
      ensures var routed := RouteOne(table, old(Ports()), old(interfaces[k].inbox[0]));
              Ports() == routed[k := routed[k].(inbox := old(interfaces[k].inbox[1..]))]
      ensures forall j :: 0 <= j < |interfaces| && j != k ==> interfaces[j].inbox == old(interfaces[j].inbox)
      ensures interfaces[k].inbox == old(interfaces[k].inbox[1..])
    {
      var port := interfaces[k];
      assert port in interfaces;
      RouteOneDatagram(port.inbox[0]);
      port.inbox := port.inbox[1..];
    }

    method DrainPort(k: nat)
      requires Valid() && k < |interfaces|
      modifies Parts()
      ensures Valid() && interfaces == old(interfaces) && table == old(table)
      ensures Outcome(table, Ports(), k + 1) == Outcome(table, old(Ports()), k)
      ensures Ports()[k].inbox == []
      ensures forall j :: 0 <= j < k ==> Ports()[j].inbox == old(Ports()[j].inbox)
    {
      ghost var goal := Outcome(table, Ports(), k);
      var port := interfaces[k];
      while port.inbox != []
        invariant Valid() && Outcome(table, Ports(), k) == goal
        invariant forall j :: 0 <= j < k ==> interfaces[j].inbox == old(interfaces[j].inbox)
        decreases |port.inbox|
      {
        ghost var before := Ports();
        RouteFront(k);
        RoutedFront(table, before, Ports(), k);
      }
      InboxesSkip(Ports(), k);
    }

    /** Every received datagram is taken from its inbox and routed, in the order of the interfaces. */
    method RouteAll()
      requires Valid()
      modifies Parts()
      ensures Valid() && interfaces == old(interfaces) && table == old(table)
      ensures Ports() == RouteList(table, Cleared(old(Ports())), Inboxes(old(Ports()), 0))
    {
      ghost var goal := Outcome(table, Ports(), 0);
      for k := 0 to |interfaces|
        invariant Valid() && interfaces == old(interfaces) && table == old(table)
        invariant Outcome(table, Ports(), k) == goal
        invariant EmptyBelow(Ports(), k)
      {
        ghost var before := Ports();
        DrainPort(k);
        EmptyStep(before, Ports(), k);
      }
      NothingLeft(table, Ports());
    }
  }
}
