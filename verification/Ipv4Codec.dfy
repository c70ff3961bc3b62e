/** IPv4 datagrams as bytes. */
module Ipv4Codec {
  import opened Numbers
  import opened Buffers
  import opened Parsers
  import opened Checksums
  import Tcp = TcpCodec
  import opened TcpSegments

  const HEADER_LENGTH: nat := 20

  datatype Ipv4Header = Ipv4Header(
    ver: u8, hlen: u8, tos: u8, len: u16, id: u16, df: bool, mf: bool, offset: u16,
    ttl: u8, proto: u8, cksum: u16, src: u32, dst: u32)

  datatype Datagram = Datagram(header: Ipv4Header, payload: bytes)

  /** The payload length a header claims, as an unsigned 16-bit difference. */
  function PayloadLength(h: Ipv4Header): (n: nat) {
    (h.len - 4 * h.hlen) % TWO16
  }

  /** The sum over the addresses, the protocol and the payload length. */
  function PseudoChecksum(h: Ipv4Header): (sum: u32)
    ensures sum < TWO31
  {
    h.src / TWO16 + h.src % TWO16 + h.dst / TWO16 + h.dst % TWO16 + h.proto + PayloadLength(h)
  }

  // ---------- headers ----------

  function FirstByte(h: Ipv4Header): u8 {
    (h.ver * 16) % 256 + h.hlen % 16
  }

  function Fragment(h: Ipv4Header): u16 {
    Tcp.Bit(h.df, 0x4000) + Tcp.Bit(h.mf, 0x2000) + h.offset % 0x2000
  }

  /** The header's bytes before the checksum, then `tail`. */
  function Front(h: Ipv4Header, tail: bytes): (b: bytes)
    ensures |b| == 10 + |tail|
  {
    U8(FirstByte(h)) + (U8(h.tos) + (U16(h.len) + (U16(h.id) + (U16(Fragment(h)) +
    (U8(h.ttl) + (U8(h.proto) + tail))))))
  }

  function Addresses(h: Ipv4Header, tail: bytes): bytes {
    U32(h.src) + (U32(h.dst) + tail)
  }

  function HeaderBytes(h: Ipv4Header, tail: bytes): (b: bytes)
    ensures |b| == 20 + |tail|
  {
    Front(h, U16(h.cksum) + Addresses(h, tail))
  }

  /** `None` stands for the exceptions on a wrong version or a short header. */
  function SerializeHeader(h: Ipv4Header): (r: Option<bytes>) {
    if h.ver != 4 || 4 * h.hlen < HEADER_LENGTH then None
    else Some(HeaderBytes(h, Tcp.Zeros(4 * h.hlen - HEADER_LENGTH)))
  }

  function Unpack(first: u8, tos: u8, len: u16, id: u16, fragment: u16, ttl: u8, proto: u8, cksum: u16,
                  src: u32, dst: u32): Ipv4Header
  {
    Ipv4Header(first / 16, first % 16, tos, len, id, (fragment / 0x4000) % 2 == 1, (fragment / 0x2000) % 2 == 1,
               fragment % 0x2000, ttl, proto, cksum, src, dst)
  }

  /** The checks made once the fields are read, in order; the checksum covers the header only. */
  function Validate(h: Ipv4Header, original: bytes, p: Reader): (ParseResult, Reader) {
    if |original| < 4 * h.hlen then (PacketTooShort, p)
    else if h.ver != 4 then (WrongIPVersion, p)
    else if h.hlen < 5 then (HeaderTooShort, p)
    else if |original| != h.len then (TruncatedPacket, p)
    else
      var p' := Skip(p, h.hlen * 4 - HEADER_LENGTH);
      if p'.error != NoError then (p'.error, p')
      else if Tcp.ChecksumOf(0, original[..4 * h.hlen]) != 0 then (BadChecksum, p')
      else (NoError, p')
  }

  function ReadFields(p: Reader): (Ipv4Header, Reader) {
    var (first, p1) := ReadU8(p);
    var (tos, p2) := ReadU8(p1);
    var (len, p3) := ReadU16(p2);
    var (id, p4) := ReadU16(p3);
    var (fragment, p5) := ReadU16(p4);
    var (ttl, p6) := ReadU8(p5);
    var (proto, p7) := ReadU8(p6);
    var (cksum, p8) := ReadU16(p7);
    var (src, p9) := ReadU32(p8);
    var (dst, p10) := ReadU32(p9);
    (Unpack(first, tos, len, id, fragment, ttl, proto, cksum, src, dst), p10)
  }

  /** Fewer than 20 bytes leave the header object as it was. */
  function ParseHeader(was: Ipv4Header, p: Reader): (Ipv4Header, ParseResult, Reader) {
    if |p.data| < HEADER_LENGTH then (was, PacketTooShort, p)
    else
      var (h, p10) := ReadFields(p);
      var (result, p') := Validate(h, p.data, p10);
      (h, result, p')
  }

  /** Headers that keep all their fields in the wire format. */
  predicate Regular(h: Ipv4Header) {
    h.ver == 4 && 5 <= h.hlen <= 15 && h.offset < 0x2000
  }

  lemma UnpackPacked(h: Ipv4Header)
    requires Regular(h)
    ensures Unpack(FirstByte(h), h.tos, h.len, h.id, Fragment(h), h.ttl, h.proto, h.cksum, h.src, h.dst) == h
  {
  }

  /** The fields read one after the other make up the header. */
  lemma FieldsMakeHeader(
    h: Ipv4Header, r0: Reader, r1: Reader, r2: Reader, r3: Reader, r4: Reader, r5: Reader, r6: Reader,
    r7: Reader, r8: Reader, r9: Reader, r10: Reader)
    requires Regular(h)
    requires ReadU8(r0) == (FirstByte(h), r1) && ReadU8(r1) == (h.tos, r2)
    requires ReadU16(r2) == (h.len, r3) && ReadU16(r3) == (h.id, r4) && ReadU16(r4) == (Fragment(h), r5)
    requires ReadU8(r5) == (h.ttl, r6) && ReadU8(r6) == (h.proto, r7)
    requires ReadU16(r7) == (h.cksum, r8) && ReadU32(r8) == (h.src, r9) && ReadU32(r9) == (h.dst, r10)
    ensures ReadFields(r0) == (h, r10)
  {
    UnpackPacked(h);
  }

  lemma ReadFront(h: Ipv4Header, t7: bytes) returns (r: seq<Reader>)
    ensures |r| == 7 && r[0] == Reader(Front(h, t7), NoError)
    ensures ReadU8(r[0]) == (FirstByte(h), r[1]) && ReadU8(r[1]) == (h.tos, r[2])
    ensures ReadU16(r[2]) == (h.len, r[3]) && ReadU16(r[3]) == (h.id, r[4]) && ReadU16(r[4]) == (Fragment(h), r[5])
    ensures ReadU8(r[5]) == (h.ttl, r[6]) && ReadU8(r[6]) == (h.proto, Reader(t7, NoError))
  {
    var t6 := U8(h.proto) + t7;
    var t5 := U8(h.ttl) + t6;
    var t4 := U16(Fragment(h)) + t5;
    var t3 := U16(h.id) + t4;
    var t2 := U16(h.len) + t3;
    var t1 := U8(h.tos) + t2;
    ParseU8(FirstByte(h), t1);
    ParseU8(h.tos, t2);
    ParseU16(h.len, t3);
    ParseU16(h.id, t4);
    ParseU16(Fragment(h), t5);
    ParseU8(h.ttl, t6);
    ParseU8(h.proto, t7);
    r := [Reader(U8(FirstByte(h)) + t1, NoError), Reader(t1, NoError), Reader(t2, NoError), Reader(t3, NoError),
          Reader(t4, NoError), Reader(t5, NoError), Reader(t6, NoError)];
  }

  lemma ReadTail(h: Ipv4Header, rest: bytes) returns (r: seq<Reader>)
    ensures |r| == 3 && r[0] == Reader(U16(h.cksum) + Addresses(h, rest), NoError)
    ensures ReadU16(r[0]) == (h.cksum, r[1]) && ReadU32(r[1]) == (h.src, r[2])
    ensures ReadU32(r[2]) == (h.dst, Reader(rest, NoError))
  {
    var t9 := U32(h.dst) + rest;
    var t8 := U32(h.src) + t9;
    ParseU16(h.cksum, t8);
    ParseU32(h.src, t9);
    ParseU32(h.dst, rest);
    r := [Reader(U16(h.cksum) + t8, NoError), Reader(t8, NoError), Reader(t9, NoError)];
  }

  lemma FieldsRoundTrip(h: Ipv4Header, rest: bytes)
    requires Regular(h)
    ensures ReadFields(Reader(HeaderBytes(h, rest), NoError)) == (h, Reader(rest, NoError))
  {
    var a := ReadFront(h, U16(h.cksum) + Addresses(h, rest));
    var b := ReadTail(h, rest);
    FieldsMakeHeader(h, a[0], a[1], a[2], a[3], a[4], a[5], a[6], b[0], b[1], b[2], Reader(rest, NoError));
  }

  lemma HeaderAppend(h: Ipv4Header, a: bytes, b: bytes)
    ensures HeaderBytes(h, a) + b == HeaderBytes(h, a + b)
  {
    FrontAppend(h, U16(h.cksum) + Addresses(h, a), b);
    assert U32(h.src) + (U32(h.dst) + a) + b == U32(h.src) + (U32(h.dst) + (a + b));
    assert U16(h.cksum) + Addresses(h, a) + b == U16(h.cksum) + (Addresses(h, a) + b);
  }

  lemma FrontAppend(h: Ipv4Header, a: bytes, b: bytes)
    ensures Front(h, a) + b == Front(h, a + b)
  {
    var f7 := U8(h.proto) + a;
    var f6 := U8(h.ttl) + f7;
    var f5 := U16(Fragment(h)) + f6;
    var f4 := U16(h.id) + f5;
    var f3 := U16(h.len) + f4;
    var f2 := U8(h.tos) + f3;
    assert f7 + b == U8(h.proto) + (a + b);
    assert f6 + b == U8(h.ttl) + (f7 + b);
    assert f5 + b == U16(Fragment(h)) + (f6 + b);
    assert f4 + b == U16(h.id) + (f5 + b);
    assert f3 + b == U16(h.len) + (f4 + b);
    assert f2 + b == U8(h.tos) + (f3 + b);
    assert U8(FirstByte(h)) + f2 + b == U8(FirstByte(h)) + (f2 + b);
  }

  /** The checksum field contributes its value to the sum. */
  lemma ChecksumFieldAdds(h: Ipv4Header, tail: bytes)
    ensures WordSum(HeaderBytes(h, tail), false) == WordSum(HeaderBytes(h.(cksum := 0), tail), false) + h.cksum
  {
    var rest := Addresses(h, tail);
    var front := Front(h, []);
    FrontSplit(h, U16(h.cksum) + rest);
    FrontSplit(h.(cksum := 0), U16(0) + rest);
    WordSumConcat(front, U16(h.cksum) + rest, false);
    WordSumConcat(front, U16(0) + rest, false);
    WordSumConcat(U16(h.cksum), rest, false);
    WordSumConcat(U16(0), rest, false);
    Tcp.WordSumU16(h.cksum);
    Tcp.WordSumU16(0);
  }

  lemma FrontSplit(h: Ipv4Header, tail: bytes)
    ensures Front(h, tail) == Front(h.(cksum := 0), []) + tail
    ensures Front(h, []) == Front(h.(cksum := 0), [])
  {
    FrontAppend(h, [], tail);
    assert [] + tail == tail;
    assert FirstByte(h.(cksum := 0)) == FirstByte(h) && Fragment(h.(cksum := 0)) == Fragment(h);
  }

  // ---------- datagrams ----------

  /** The header's own bytes, options zeroed. */
  function OwnBytes(h: Ipv4Header): (b: bytes)
    requires h.hlen >= 5
    ensures |b| == 4 * h.hlen
  {
    HeaderBytes(h, Tcp.Zeros(4 * h.hlen - HEADER_LENGTH))
  }

  function Checksummed(h: Ipv4Header): Ipv4Header
    requires h.hlen >= 5
  {
    h.(cksum := Tcp.ChecksumOf(0, OwnBytes(h.(cksum := 0))))
  }

  /** `None` stands for the exceptions: a payload of the wrong size, or a header that cannot be serialized. */
  function SerializeDatagram(d: Datagram): (r: Option<bytes>) {
    if |d.payload| != PayloadLength(d.header) || d.header.ver != 4 || d.header.hlen < 5 then None
    else Some(OwnBytes(Checksummed(d.header)) + d.payload)
  }

  /** The result of the header's own parse is not looked at. */
  function ParseDatagram(was: Ipv4Header, data: bytes): (ParseResult, Datagram) {
    var (h, _, p) := ParseHeader(was, Reader(data, NoError));
    (if |p.data| != PayloadLength(h) then PacketTooShort else p.error, Datagram(h, p.data))
  }

  /** A datagram whose length field agrees with its payload. */
  predicate Consistent(d: Datagram) {
    Regular(d.header) && d.header.len == 4 * d.header.hlen + |d.payload|
  }

  /** A consistent datagram's header is parsed back, and its own result tells whether the checksum is right. */
  lemma HeaderRoundTrip(d: Datagram, was: Ipv4Header)
    requires Consistent(d)
    ensures ParseHeader(was, Reader(OwnBytes(d.header) + d.payload, NoError))
         == (d.header, if Tcp.ChecksumOf(0, OwnBytes(d.header)) == 0 then NoError else BadChecksum,
             Reader(d.payload, NoError))
  {
    var h, pad := d.header, Tcp.Zeros(4 * d.header.hlen - HEADER_LENGTH);
    var data := OwnBytes(h) + d.payload;
    HeaderAppend(h, pad, d.payload);
    FieldsRoundTrip(h, pad + d.payload);
    ValidateWritten(h, pad, d.payload, data);
  }

  lemma ValidateWritten(h: Ipv4Header, pad: bytes, payload: bytes, data: bytes)
    requires Regular(h) && |pad| == 4 * h.hlen - HEADER_LENGTH
    requires |data| == h.len == 4 * h.hlen + |payload|
    ensures Validate(h, data, Reader(pad + payload, NoError))
         == (if Tcp.ChecksumOf(0, data[..4 * h.hlen]) == 0 then NoError else BadChecksum, Reader(payload, NoError))
  {
    assert (pad + payload)[|pad|..] == payload;
  }

  lemma OwnChecksumZero(h: Ipv4Header)
    requires 5 <= h.hlen <= 15
    ensures Tcp.ChecksumOf(0, OwnBytes(Checksummed(h))) == 0
  {
    var h', h0 := Checksummed(h), h.(cksum := 0);
    ChecksumFieldAdds(h', Tcp.Zeros(4 * h.hlen - HEADER_LENGTH));
    assert h'.(cksum := 0) == h0;
    ZeroAfter(OwnBytes(h0), OwnBytes(h'), h'.cksum);
  }

  lemma ZeroAfter(before: bytes, after: bytes, cksum: u16)
    requires |before| <= 65535 && |after| <= 65535 && cksum == Tcp.ChecksumOf(0, before)
    requires WordSum(after, false) == WordSum(before, false) + cksum
    ensures Tcp.ChecksumOf(0, after) == 0
  {
    ShortSum(before);
    ShortSum(after);
    ValueCompletes(WordSum(before, false));
  }

  lemma ShortSum(data: bytes)
    requires |data| <= 65535
    ensures Tcp.ChecksumOf(0, data) == Value(WordSum(data, false))
  {
    WholeSum(WordSum(data, false));
  }

  lemma WholeSum(w: nat)
    requires w < TWO32
    ensures (0 + w) % TWO32 == w
  {
  }

  /** Parsing a serialized datagram returns it, with its checksum filled in and found correct. */
  lemma DatagramRoundTrip(d: Datagram, was: Ipv4Header)
    requires Consistent(d)
    ensures SerializeDatagram(d).Some?
    ensures var data := SerializeDatagram(d).value;
            && ParseDatagram(was, data) == (NoError, d.(header := Checksummed(d.header)))
            && ParseHeader(was, Reader(data, NoError)).1 == NoError
  {
    assert PayloadLength(d.header) == |d.payload|;
    OwnChecksumZero(d.header);
    WrittenParses(d.(header := Checksummed(d.header)), was);
  }

  /**
   The documentation lists a bad checksum among the errors to check for. The
   datagram parser does not report it: any consistent datagram is accepted
   whatever its checksum field says, while the header's own parse fails exactly
   when the checksum is wrong.
   */
  lemma WrittenParses(d: Datagram, was: Ipv4Header)
    requires Consistent(d)
    ensures ParseDatagram(was, OwnBytes(d.header) + d.payload) == (NoError, d)
    ensures ParseHeader(was, Reader(OwnBytes(d.header) + d.payload, NoError)).1 == NoError <==>
            Tcp.ChecksumOf(0, OwnBytes(d.header)) == 0
  {
    HeaderRoundTrip(d, was);
    LengthAgrees(d);
    PayloadOfParse(was, OwnBytes(d.header) + d.payload, d);
  }

  lemma LengthAgrees(d: Datagram)
    requires Consistent(d)
    ensures PayloadLength(d.header) == |d.payload|
  {
  }

  lemma PayloadOfParse(was: Ipv4Header, data: bytes, d: Datagram)
    requires ParseHeader(was, Reader(data, NoError)).0 == d.header
    requires ParseHeader(was, Reader(data, NoError)).2 == Reader(d.payload, NoError)
    requires PayloadLength(d.header) == |d.payload|
    ensures ParseDatagram(was, data) == (NoError, d)
  {
  }

  /** For every datagram: a checksum field off by less than 65535 is wrong, and accepted all the same. */
  lemma WrongChecksumIsAccepted(d: Datagram, cksum: u16, was: Ipv4Header)
    requires Consistent(d)
    requires cksum != Checksummed(d.header).cksum && -65535 < cksum - Checksummed(d.header).cksum < 65535
    ensures var bad := d.(header := d.header.(cksum := cksum));
            var data := OwnBytes(bad.header) + bad.payload;
            && ParseHeader(was, Reader(data, NoError)).1 == BadChecksum
            && ParseDatagram(was, data) == (NoError, bad)
  {
    var good, bad := Checksummed(d.header), d.header.(cksum := cksum);
    var pad := Tcp.Zeros(4 * d.header.hlen - HEADER_LENGTH);
    OwnChecksumZero(d.header);
    ChecksumFieldAdds(good, pad);
    ChecksumFieldAdds(bad, pad);
    assert good.(cksum := 0) == bad.(cksum := 0);
    NonzeroAfter(OwnBytes(good), OwnBytes(bad), cksum - good.cksum);
    HeaderRoundTrip(d.(header := bad), was);
    WrittenParses(d.(header := bad), was);
  }

  lemma NonzeroAfter(good: bytes, bad: bytes, diff: int)
    requires |good| <= 65535 && |bad| <= 65535 && Tcp.ChecksumOf(0, good) == 0
    requires WordSum(bad, false) == WordSum(good, false) + diff && diff != 0 && -65535 < diff < 65535
    ensures Tcp.ChecksumOf(0, bad) != 0
  {
    ShortSum(good);
    ShortSum(bad);
    ValueZeroIff(WordSum(good, false));
    ValueZeroIff(WordSum(bad, false));
    NotMultipleNearby(WordSum(good, false), diff);
  }

  /** A TCP segment inside a datagram: each layer hands the other exactly what was put in. */
  lemma TcpInIpRoundTrip(h: Ipv4Header, seg: Segment, was: Ipv4Header)
    requires 5 <= seg.header.doff <= 15 && Tcp.Sendable(seg, PseudoChecksum(h))
    requires Consistent(Datagram(h, Tcp.SerializeSegment(seg, PseudoChecksum(h)).value))
    ensures var d := Datagram(h, Tcp.SerializeSegment(seg, PseudoChecksum(h)).value);
            var parsed := ParseDatagram(was, SerializeDatagram(d).value);
            && parsed.0 == NoError
            && Tcp.ParseSegment(parsed.1.payload, PseudoChecksum(parsed.1.header))
            == (NoError, Some(seg.(header := Tcp.Checksummed(seg, PseudoChecksum(h)))))
  {
    var d := Datagram(h, Tcp.SerializeSegment(seg, PseudoChecksum(h)).value);
    DatagramRoundTrip(d, was);
    Tcp.SegmentRoundTrip(seg, PseudoChecksum(h));
    assert PseudoChecksum(Checksummed(h)) == PseudoChecksum(h);
  }

  // ---------- the imperative codec ----------

  method ReadHeader(was: Ipv4Header, p: NetParser) returns (h: Ipv4Header, result: ParseResult)
    modifies p
    ensures (h, result, p.View()) == ParseHeader(was, old(p.View()))
  {
    var original := p.buffer.Str();
    if |original| < HEADER_LENGTH {
      return was, PacketTooShort;
    }
    h := ReadAllFields(p);
    result := Check(h, original, p);
  }

  method ReadAllFields(p: NetParser) returns (h: Ipv4Header)
    modifies p
    ensures (h, p.View()) == ReadFields(old(p.View()))
  {
    var first := p.NextU8();
    var tos := p.NextU8();
    var len := p.NextU16();
    var id := p.NextU16();
    var fragment := p.NextU16();
    var ttl := p.NextU8();
    var proto := p.NextU8();
    var cksum := p.NextU16();
    var src := p.NextU32();
    var dst := p.NextU32();
    h := Unpack(first, tos, len, id, fragment, ttl, proto, cksum, src, dst);
  }

  method Check(h: Ipv4Header, original: bytes, p: NetParser) returns (result: ParseResult)
    modifies p
    ensures (result, p.View()) == Validate(h, original, old(p.View()))
  {
    if |original| < 4 * h.hlen {
      return PacketTooShort;
    }
    if h.ver != 4 {
      return WrongIPVersion;
    }
    if h.hlen < 5 {
      return HeaderTooShort;
    }
    if |original| != h.len {
      return TruncatedPacket;
    }
    p.RemovePrefix(h.hlen * 4 - HEADER_LENGTH);
    if p.error != NoError {
      return p.error;
    }
    var cksum := HeaderChecksum(original[..4 * h.hlen]);
    return if cksum != 0 then BadChecksum else NoError;
  }

  method HeaderChecksum(data: bytes) returns (cksum: u16)
    ensures cksum == Tcp.ChecksumOf(0, data)
  {
    var check := new InternetChecksum(0);
    check.Add(data);
    cksum := check.Result();
  }

  method ReadDatagram(was: Ipv4Header, data: bytes) returns (result: ParseResult, d: Datagram)
    ensures (result, d) == ParseDatagram(was, data)
  {
    var p := new NetParser(data);
    var h, ignored := ReadHeader(was, p);
    d := Datagram(h, p.buffer.Str());
    if |d.payload| != PayloadLength(h) {
      return PacketTooShort, d;
    }
    return p.error, d;
  }

  method WriteHeader(h: Ipv4Header) returns (r: Option<bytes>)
    ensures r == SerializeHeader(h)
  {
    if h.ver != 4 || 4 * h.hlen < HEADER_LENGTH {
      return None;
    }
    var s := WriteFront(h);
    s := UnparseInt(s, h.cksum, 2);
    s := UnparseInt(s, h.src, 4);
    s := UnparseInt(s, h.dst, 4);
    var pad := Tcp.Zeros(4 * h.hlen - HEADER_LENGTH);
    HeaderFlat(h, pad);
    return Some(s + pad);
  }

  /** Appending field by field gives the nested form. */
  lemma HeaderFlat(h: Ipv4Header, pad: bytes)
    ensures Front(h, []) + U16(h.cksum) + U32(h.src) + U32(h.dst) + pad == HeaderBytes(h, pad)
  {
    var rest := U16(h.cksum) + Addresses(h, pad);
    FrontAppend(h, [], rest);
    assert [] + rest == rest;
    Reassociate(Front(h, []), U16(h.cksum), U32(h.src), U32(h.dst), pad);
  }

  lemma Reassociate(a: bytes, b: bytes, c: bytes, d: bytes, e: bytes)
    ensures a + b + c + d + e == a + (b + (c + (d + e)))
  {
  }

  method WriteFront(h: Ipv4Header) returns (s: bytes)
    ensures s == Front(h, [])
  {
    s := UnparseInt([], FirstByte(h), 1);
    s := UnparseInt(s, h.tos, 1);
    s := UnparseInt(s, h.len, 2);
    s := UnparseInt(s, h.id, 2);
    s := UnparseInt(s, Fragment(h), 2);
    s := UnparseInt(s, h.ttl, 1);
    s := UnparseInt(s, h.proto, 1);
    FrontFlat(h);
  }

  lemma FrontFlat(h: Ipv4Header)
    ensures [] + U8(FirstByte(h)) + U8(h.tos) + U16(h.len) + U16(h.id) + U16(Fragment(h)) + U8(h.ttl) + U8(h.proto)
         == Front(h, [])
  {
    assert U8(h.proto) + [] == U8(h.proto);
  }

  method WriteDatagram(d: Datagram) returns (r: Option<bytes>)
    ensures r == SerializeDatagram(d)
  {
    if |d.payload| != PayloadLength(d.header) {
      return None;
    }
    var first := WriteHeader(d.header.(cksum := 0));
    if first.None? {
      return None;
    }
    var cksum := HeaderChecksum(first.value);
    var final := WriteHeader(d.header.(cksum := cksum));
    var list := new BufferList.FromString(final.value);
    var payload := new BufferList.FromString(d.payload);
    list.Append(payload);
    var all := list.Concatenate(|final.value| + |d.payload|);
    assert all == final.value + d.payload;
    return Some(all);
  }
}
