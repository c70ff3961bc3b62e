/** A network interface: it resolves next hops by ARP (RFC 826) and queues datagrams until they are resolved. */
module NetworkInterfaces {
  import opened Numbers
  import opened Buffers
  import opened Ipv4Codec

  type Mac = x: int | 0 <= x < 0x1_0000_0000_0000
  const BROADCAST: Mac := 0xffff_ffff_ffff
  const OPCODE_REQUEST: u16 := 1
  const OPCODE_REPLY: u16 := 2
  const ARP_PENDING_TTL: int := 5000
  const ARP_CACHE_TTL: int := 30000

  datatype ArpMessage = ArpMessage(opcode: u16, senderMac: Mac, senderIp: u32, targetMac: Mac, targetIp: u32)

  datatype Body = Ipv4Body(dgram: Datagram) | ArpBody(msg: ArpMessage) | OtherBody
  datatype Frame = Frame(dst: Mac, src: Mac, body: Body)

  datatype Entry = Entry(mac: Mac, ttl: int)
  datatype Pending = Pending(dgrams: seq<Datagram>, ttl: int)

  /** `framesOut` collects every frame queued for the owner, who only takes them away. */
  datatype Interface = Interface(
    mac: Mac, ip: u32, cache: map<u32, Entry>, pending: map<u32, Pending>, framesOut: seq<Frame>)

  function NewInterface(mac: Mac, ip: u32): Interface {
    Interface(mac, ip, map[], map[], [])
  }

  function Queue(i: Interface, f: Frame): Interface {
    i.(framesOut := i.framesOut + [f])
  }

  function IpFrame(src: Mac, dst: Mac, dgram: Datagram): Frame {
    Frame(dst, src, Ipv4Body(dgram))
  }

  function RequestFrame(src: Mac, srcIp: u32, ip: u32): Frame {
    Frame(BROADCAST, src, ArpBody(ArpMessage(OPCODE_REQUEST, src, srcIp, 0, ip)))
  }

  function ReplyFrame(src: Mac, srcIp: u32, dst: Mac, ip: u32): Frame {
    Frame(dst, src, ArpBody(ArpMessage(OPCODE_REPLY, src, srcIp, dst, ip)))
  }

  /** Sends at once when the next hop is known; otherwise waits, asking only if no request is open. */
  function SendDatagram(i: Interface, dgram: Datagram, hop: u32): Interface {
    if hop in i.cache then Queue(i, IpFrame(i.mac, i.cache[hop].mac, dgram))
    else if hop !in i.pending then
      Queue(i, RequestFrame(i.mac, i.ip, hop)).(pending := i.pending[hop := Pending([dgram], ARP_PENDING_TTL)])
    else i.(pending := i.pending[hop := i.pending[hop].(dgrams := i.pending[hop].dgrams + [dgram])])
  }

  predicate AddressedTo(i: Interface, f: Frame) {
    f.dst == BROADCAST || f.dst == i.mac
  }

  function Learn(i: Interface, ip: u32, mac: Mac): Interface {
    i.(cache := i.cache[ip := Entry(mac, ARP_CACHE_TTL)])
  }

  function IpFrames(src: Mac, dst: Mac, dgrams: seq<Datagram>): (fs: seq<Frame>)
    ensures |fs| == |dgrams| && forall k :: 0 <= k < |fs| ==> fs[k] == IpFrame(src, dst, dgrams[k])
  {
    seq(|dgrams|, k requires 0 <= k < |dgrams| => IpFrame(src, dst, dgrams[k]))
  }

  /** A reply releases everything that waits for it. */
  function ReplyReceived(i: Interface, m: ArpMessage): Interface
    requires m.senderIp in i.pending
  {
    Learn(i, m.senderIp, m.senderMac).(
      framesOut := i.framesOut + IpFrames(i.mac, m.senderMac, i.pending[m.senderIp].dgrams),
      pending := i.pending - {m.senderIp})
  }

  /** A request teaches the sender's address and is answered. */
  function RequestReceived(i: Interface, m: ArpMessage): Interface {
    Queue(Learn(i, m.senderIp, m.senderMac), ReplyFrame(i.mac, i.ip, m.senderMac, m.senderIp))
  }

  /** A frame whose ARP reply, if it is one for us, answers an open request. */
  predicate Expected(i: Interface, f: Frame) {
    AddressedTo(i, f) && f.body.ArpBody? && f.body.msg.opcode == OPCODE_REPLY && f.body.msg.targetIp == i.ip ==>
      f.body.msg.senderIp in i.pending
  }

  function ReceiveFrame(i: Interface, f: Frame): (r: (Interface, Option<Datagram>))
    requires Expected(i, f)
  {
    if !AddressedTo(i, f) then (i, None)
    else
      match f.body
      case ArpBody(m) =>
        if m.targetIp != i.ip then (i, None)
        else if m.opcode == OPCODE_REPLY then (ReplyReceived(i, m), None)
        else (RequestReceived(i, m), None)
      case Ipv4Body(dgram) => (i, Some(dgram))
      case OtherBody => (i, None)
  }

  /** A 32-bit signed counter after an unsigned 64-bit subtraction. */
  function Aged(ttl: int, ms: nat): int {
    (ttl - ms + TWO31) % TWO32 - TWO31
  }

  function Tick(i: Interface, ms: nat): Interface {
    i.(cache := map ip | ip in i.cache && Aged(i.cache[ip].ttl, ms) > 0
                    :: i.cache[ip].(ttl := Aged(i.cache[ip].ttl, ms)),
       pending := map ip | ip in i.pending && Aged(i.pending[ip].ttl, ms) > 0
                      :: i.pending[ip].(ttl := Aged(i.pending[ip].ttl, ms)))
  }

  /** A tick of 2^32 milliseconds leaves every counter where it was: the subtraction wraps around. */
  lemma HugeTickAgesNothing(i: Interface)
    requires forall ip :: ip in i.cache ==> 0 < i.cache[ip].ttl <= ARP_CACHE_TTL
    requires forall ip :: ip in i.pending ==> 0 < i.pending[ip].ttl <= ARP_PENDING_TTL
    ensures Tick(i, TWO32) == i
  {
    forall ip | ip in i.cache ensures Aged(i.cache[ip].ttl, TWO32) == i.cache[ip].ttl {
      AgedWraps(i.cache[ip].ttl);
    }
    forall ip | ip in i.pending ensures Aged(i.pending[ip].ttl, TWO32) == i.pending[ip].ttl {
      AgedWraps(i.pending[ip].ttl);
    }
    assert Tick(i, TWO32).cache == i.cache && Tick(i, TWO32).pending == i.pending;
  }

  lemma AgedWraps(ttl: int)
    requires 0 < ttl <= ARP_CACHE_TTL
    ensures Aged(ttl, TWO32) == ttl
  {
  }

  /** The tick is shorter than the counter, or the excess lies in the first half of a turn of 32 bits. */
  predicate AgesRightly(ttl: int, ms: nat) {
    ms < ttl || (ms - ttl) % TWO32 <= TWO31
  }

  /** An entry is kept exactly when its time is not up, if and only if it ages rightly; a kept one is then exact. */
  lemma AgedRightlyIff(ttl: int, ms: nat)
    requires 0 < ttl < TWO31
    ensures (Aged(ttl, ms) > 0 <==> ms < ttl) <==> AgesRightly(ttl, ms)
    ensures ms < ttl ==> Aged(ttl, ms) == ttl - ms
  {
    if ms < ttl {
      assert 0 <= ttl - ms + TWO31 < TWO32;
    } else {
      Negated(ms - ttl);
    }
  }

  lemma Negated(excess: int)
    requires excess >= 0
    ensures (TWO31 - excess) % TWO32 - TWO31 > 0 <==> excess % TWO32 > TWO31
  {
    var e, turns := excess % TWO32, excess / TWO32;
    assert TWO31 - excess == (TWO31 - e) + (0 - turns) * TWO32;
    TurnsDrop(TWO31 - e, 0 - turns);
    if e > TWO31 {
      assert (TWO31 - e) % TWO32 == TWO31 - e + TWO32;
    } else {
      assert (TWO31 - e) % TWO32 == TWO31 - e;
    }
  }

  lemma TurnsDrop(x: int, turns: int)
    ensures (x + turns * TWO32) % TWO32 == x % TWO32
  {
  }

  /** Every entry ages rightly. */
  predicate AllAgeRightly(i: Interface, ms: nat) {
    && (forall ip :: ip in i.cache ==> AgesRightly(i.cache[ip].ttl, ms))
    && (forall ip :: ip in i.pending ==> AgesRightly(i.pending[ip].ttl, ms))
  }

  // ---------- the imperative interface ----------

  class NetworkInterface {
    const mac: Mac
    const ip: u32
    var cache: map<u32, Entry>
    var pending: map<u32, Pending>
    var framesOut: seq<Frame>

    ghost function View(): Interface
      reads this
    {
      Interface(mac, ip, cache, pending, framesOut)
    }

    constructor (mac: Mac, ip: u32)
      ensures View() == NewInterface(mac, ip)
    {
      this.mac, this.ip := mac, ip;
      cache, pending, framesOut := map[], map[], [];
    }

    method Send(dgram: Datagram, hop: u32)
      modifies this
      ensures View() == SendDatagram(old(View()), dgram, hop)
    {
      if hop in cache {
        framesOut := framesOut + [Frame(cache[hop].mac, mac, Ipv4Body(dgram))];
      } else if hop !in pending {
        framesOut := framesOut + [Frame(BROADCAST, mac, ArpBody(ArpMessage(OPCODE_REQUEST, mac, ip, 0, hop)))];
        pending := pending[hop := Pending([dgram], ARP_PENDING_TTL)];
      } else {
        pending := pending[hop := pending[hop].(dgrams := pending[hop].dgrams + [dgram])];
      }
    }

    method HandleReply(m: ArpMessage)
      requires m.senderIp in pending
      modifies this
      ensures View() == ReplyReceived(old(View()), m)
    {
      ghost var i := View();
      cache := cache[m.senderIp := Entry(m.senderMac, ARP_CACHE_TTL)];
      var dgrams := pending[m.senderIp].dgrams;
      for k := 0 to |dgrams|
        invariant framesOut == i.framesOut + IpFrames(mac, m.senderMac, dgrams)[..k]
        invariant cache == i.cache[m.senderIp := Entry(m.senderMac, ARP_CACHE_TTL)] && pending == i.pending
      {
        framesOut := framesOut + [Frame(m.senderMac, mac, Ipv4Body(dgrams[k]))];
      }
      pending := pending - {m.senderIp};
    }

    method Receive(f: Frame) returns (r: Option<Datagram>)
      requires Expected(View(), f)
      modifies this
      ensures (View(), r) == ReceiveFrame(old(View()), f)
    {
      if f.dst != BROADCAST && f.dst != mac {
        return None;
      }
      if f.body.ArpBody? {
        var m := f.body.msg;
        if m.opcode == OPCODE_REPLY {
          if m.targetIp == ip {
            HandleReply(m);
          }
        } else if m.targetIp == ip {
          cache := cache[m.senderIp := Entry(m.senderMac, ARP_CACHE_TTL)];
          framesOut := framesOut
            + [Frame(m.senderMac, mac, ArpBody(ArpMessage(OPCODE_REPLY, mac, ip, m.senderMac, m.senderIp)))];
        }
      }
      if f.body.Ipv4Body? {
        return Some(f.body.dgram);
      }
      return None;
    }

    /** Walks over the cache and erases what has expired. */
    method AgeCache(ms: nat)
      modifies this`cache
      ensures cache == Tick(old(View()), ms).cache
    {
      ghost var was := cache;
      var left := cache.Keys;
      while left != {}
        invariant left <= was.Keys
        invariant cache == map ip | ip in was && (ip in left || Aged(was[ip].ttl, ms) > 0)
                               :: if ip in left then was[ip] else was[ip].(ttl := Aged(was[ip].ttl, ms))
        decreases |left|
      {
        var ip :| ip in left;
        var ttl := Aged(cache[ip].ttl, ms);
        left := left - {ip};
        if ttl <= 0 {
          cache := cache - {ip};
        } else {
          cache := cache[ip := cache[ip].(ttl := ttl)];
        }
      }
    }

    method AgePending(ms: nat)
      modifies this`pending
      ensures pending == Tick(old(View()), ms).pending
    {
      ghost var was := pending;
      var left := pending.Keys;
      while left != {}
        invariant left <= was.Keys
        invariant pending == map ip | ip in was && (ip in left || Aged(was[ip].ttl, ms) > 0)
                                 :: if ip in left then was[ip] else was[ip].(ttl := Aged(was[ip].ttl, ms))
        decreases |left|
      {
        var ip :| ip in left;
        var ttl := Aged(pending[ip].ttl, ms);
        left := left - {ip};
        if ttl <= 0 {
          pending := pending - {ip};
        } else {
          pending := pending[ip := pending[ip].(ttl := ttl)];
        }
      }
    }

    method PassTime(ms: nat)
      modifies this
      ensures View() == Tick(old(View()), ms)
    {
      AgeCache(ms);
      AgePending(ms);
    }
  }
}
