/** TCP segments as bytes: serialization with a checksum, and parsing that verifies it. */
module TcpCodec {
  import opened Numbers
  import opened Buffers
  import opened Parsers
  import opened Checksums
  import opened TcpSegments

  const HEADER_LENGTH: nat := 20

  function Bit(b: bool, weight: nat): nat {
    if b then weight else 0
  }

  function FlagByte(h: TcpHeader): (f: u8) {
    Bit(h.urg, 32) + Bit(h.ack, 16) + Bit(h.psh, 8) + Bit(h.rst, 4) + Bit(h.syn, 2) + Bit(h.fin, 1)
  }

  predicate HasBit(b: u8, weight: nat)
    requires weight > 0
  {
    (b / weight) % 2 == 1
  }

  // ---------- headers ----------

  function Zeros(n: nat): (z: bytes)
    ensures |z| == n
  {
    seq(n, _ => 0)
  }

  /** The header's bytes before the checksum, then `tail`. */
  function Front(h: TcpHeader, tail: bytes): (b: bytes)
    ensures |b| == 16 + |tail|
  {
    U16(h.sport) + (U16(h.dport) + (U32(h.seqno) + (U32(h.ackno) +
    (U8((h.doff * 16) % 256) + (U8(FlagByte(h)) + (U16(h.win) + tail))))))
  }

  function HeaderBytes(h: TcpHeader, tail: bytes): (b: bytes)
    ensures |b| == 20 + |tail|
  {
    Front(h, U16(h.cksum) + (U16(h.uptr) + tail))
  }

  /** `None` stands for the exception on a header shorter than 20 bytes. */
  function SerializeHeader(h: TcpHeader): (r: Option<bytes>) {
    if h.doff < 5 then None else Some(HeaderBytes(h, Zeros(4 * h.doff - HEADER_LENGTH)))
  }

  /** Reads the fields in order, then skips the options. */
  function ParseHeader(p: Reader): (TcpHeader, ParseResult, Reader) {
    var (sport, p1) := ReadU16(p);
    var (dport, p2) := ReadU16(p1);
    var (seqno, p3) := ReadU32(p2);
    var (ackno, p4) := ReadU32(p3);
    var (offset, p5) := ReadU8(p4);
    var (flags, p6) := ReadU8(p5);
    var (win, p7) := ReadU16(p6);
    var (cksum, p8) := ReadU16(p7);
    var (uptr, p9) := ReadU16(p8);
    SkipOptions(Unpack(sport, dport, seqno, ackno, offset, flags, win, cksum, uptr), p9)
  }

  function Unpack(sport: u16, dport: u16, seqno: u32, ackno: u32, offset: u8, flags: u8,
                  win: u16, cksum: u16, uptr: u16): TcpHeader
  {
    TcpHeader(sport, dport, seqno, ackno, offset / 16,
              HasBit(flags, 32), HasBit(flags, 16), HasBit(flags, 8),
              HasBit(flags, 4), HasBit(flags, 2), HasBit(flags, 1), win, cksum, uptr)
  }

  function SkipOptions(h: TcpHeader, p: Reader): (TcpHeader, ParseResult, Reader) {
    if h.doff < 5 then (h, HeaderTooShort, p)
    else
      var p' := Skip(p, h.doff * 4 - HEADER_LENGTH);
      (h, p'.error, p')
  }

  /** The flags survive their packing into one byte. */
  lemma FlagsRoundTrip(h: TcpHeader)
    ensures var f := FlagByte(h);
            && HasBit(f, 32) == h.urg && HasBit(f, 16) == h.ack && HasBit(f, 8) == h.psh
            && HasBit(f, 4) == h.rst && HasBit(f, 2) == h.syn && HasBit(f, 1) == h.fin
  {
  }

  lemma UnpackPacked(h: TcpHeader)
    requires h.doff <= 15
    ensures Unpack(h.sport, h.dport, h.seqno, h.ackno, (h.doff * 16) % 256, FlagByte(h), h.win, h.cksum, h.uptr) == h
  {
    FlagsRoundTrip(h);
    assert ((h.doff * 16) % 256) / 16 == h.doff;
  }

  /** The fields read one after the other make up the header. */
  lemma FieldsMakeHeader(
    h: TcpHeader, r0: Reader, r1: Reader, r2: Reader, r3: Reader, r4: Reader, r5: Reader, r6: Reader,
    r7: Reader, r8: Reader, r9: Reader)
    requires h.doff <= 15
    requires ReadU16(r0) == (h.sport, r1) && ReadU16(r1) == (h.dport, r2)
    requires ReadU32(r2) == (h.seqno, r3) && ReadU32(r3) == (h.ackno, r4)
    requires ReadU8(r4) == ((h.doff * 16) % 256, r5) && ReadU8(r5) == (FlagByte(h), r6)
    requires ReadU16(r6) == (h.win, r7) && ReadU16(r7) == (h.cksum, r8) && ReadU16(r8) == (h.uptr, r9)
    ensures ParseHeader(r0) == SkipOptions(h, r9)
  {
    UnpackPacked(h);
  }

  /** Parsing a serialized header returns it, and what follows it. */
  lemma HeaderRoundTrip(h: TcpHeader, payload: bytes)
    requires 5 <= h.doff <= 15
    ensures ParseHeader(Reader(HeaderBytes(h, Zeros(4 * h.doff - 20) + payload), NoError))
         == (h, NoError, Reader(payload, NoError))
  {
    var t9 := Zeros(4 * h.doff - 20) + payload;
    var t8 := U16(h.uptr) + t9;
    var t7 := U16(h.cksum) + t8;
    var r7 := ReadTail(h, t9, payload);
    var r0 := ReadFront(h, t7);
    FieldsMakeHeader(h, r0[0], r0[1], r0[2], r0[3], r0[4], r0[5], r0[6], r7[0], r7[1], r7[2]);
  }

  /** The readers before each field of the front. */
  lemma ReadFront(h: TcpHeader, t7: bytes) returns (r: seq<Reader>)
    ensures |r| == 7 && r[0] == Reader(Front(h, t7), NoError)
    ensures ReadU16(r[0]) == (h.sport, r[1]) && ReadU16(r[1]) == (h.dport, r[2])
    ensures ReadU32(r[2]) == (h.seqno, r[3]) && ReadU32(r[3]) == (h.ackno, r[4])
    ensures ReadU8(r[4]) == ((h.doff * 16) % 256, r[5]) && ReadU8(r[5]) == (FlagByte(h), r[6])
    ensures ReadU16(r[6]) == (h.win, Reader(t7, NoError))
  {
    var t6 := U16(h.win) + t7;
    var t5 := U8(FlagByte(h)) + t6;
    var t4 := U8((h.doff * 16) % 256) + t5;
    var t3 := U32(h.ackno) + t4;
    var t2 := U32(h.seqno) + t3;
    var t1 := U16(h.dport) + t2;
    ParseU16(h.sport, t1);
    ParseU16(h.dport, t2);
    ParseU32(h.seqno, t3);
    ParseU32(h.ackno, t4);
    ParseU8((h.doff * 16) % 256, t5);
    ParseU8(FlagByte(h), t6);
    ParseU16(h.win, t7);
    r := [Reader(U16(h.sport) + t1, NoError), Reader(t1, NoError), Reader(t2, NoError), Reader(t3, NoError),
          Reader(t4, NoError), Reader(t5, NoError), Reader(t6, NoError)];
  }

  lemma ReadTail(h: TcpHeader, t9: bytes, payload: bytes) returns (r: seq<Reader>)
    requires h.doff >= 5 && t9 == Zeros(4 * h.doff - 20) + payload
    ensures |r| == 4 && r[0] == Reader(U16(h.cksum) + (U16(h.uptr) + t9), NoError)
    ensures ReadU16(r[0]) == (h.cksum, r[1]) && ReadU16(r[1]) == (h.uptr, r[2])
    ensures Skip(r[2], 4 * h.doff - 20) == r[3] == Reader(payload, NoError)
  {
    var t8 := U16(h.uptr) + t9;
    ParseU16(h.cksum, t8);
    ParseU16(h.uptr, t9);
    assert t9[4 * h.doff - 20..] == payload;
    r := [Reader(U16(h.cksum) + t8, NoError), Reader(t8, NoError), Reader(t9, NoError), Reader(payload, NoError)];
  }

  // ---------- segments ----------

  /** The 32-bit sum over a pseudo-header sum and some bytes. */
  function ChecksumOf(pseudo: u32, data: bytes): u16 {
    Value((pseudo + WordSum(data, false)) % TWO32)
  }

  function Checksummed(seg: Segment, pseudo: u32): (h: TcpHeader)
    requires seg.header.doff >= 5
  {
    var zeroed := seg.header.(cksum := 0);
    seg.header.(cksum := ChecksumOf(pseudo, HeaderBytes(zeroed, Zeros(4 * zeroed.doff - 20)) + seg.payload))
  }

  function SerializeSegment(seg: Segment, pseudo: u32): (r: Option<bytes>) {
    if seg.header.doff < 5 then None
    else
      var h := Checksummed(seg, pseudo);
      Some(HeaderBytes(h, Zeros(4 * h.doff - 20)) + seg.payload)
  }

  /** A bad checksum stops the parse; an error in the header itself is reported only through the reader. */
  function ParseSegment(data: bytes, pseudo: u32): (ParseResult, Option<Segment>) {
    if ChecksumOf(pseudo, data) != 0 then (BadChecksum, None) else ParseChecked(data)
  }

  function ParseChecked(data: bytes): (ParseResult, Option<Segment>) {
    var (h, _, p) := ParseHeader(Reader(data, NoError));
    (p.error, Some(Segment(h, p.data)))
  }

  lemma HeaderAppend(h: TcpHeader, a: bytes, b: bytes)
    ensures HeaderBytes(h, a) + b == HeaderBytes(h, a + b)
  {
    FrontAppend(h, U16(h.cksum) + (U16(h.uptr) + a), b);
    assert U16(h.cksum) + (U16(h.uptr) + a) + b == U16(h.cksum) + (U16(h.uptr) + (a + b));
  }

  lemma FrontAppend(h: TcpHeader, a: bytes, b: bytes)
    ensures Front(h, a) + b == Front(h, a + b)
  {
    var f7 := U16(h.win) + a;
    var f6 := U8(FlagByte(h)) + f7;
    var f5 := U8((h.doff * 16) % 256) + f6;
    var f4 := U32(h.ackno) + f5;
    var f3 := U32(h.seqno) + f4;
    var f2 := U16(h.dport) + f3;
    assert f7 + b == U16(h.win) + (a + b);
    assert f6 + b == U8(FlagByte(h)) + (f7 + b);
    assert f5 + b == U8((h.doff * 16) % 256) + (f6 + b);
    assert f4 + b == U32(h.ackno) + (f5 + b);
    assert f3 + b == U32(h.seqno) + (f4 + b);
    assert f2 + b == U16(h.dport) + (f3 + b);
    assert U16(h.sport) + f2 + b == U16(h.sport) + (f2 + b);
  }

  /** The checksum field contributes its value to the sum. */
  lemma ChecksumFieldAdds(h: TcpHeader, tail: bytes)
    ensures WordSum(HeaderBytes(h, tail), false) == WordSum(HeaderBytes(h.(cksum := 0), tail), false) + h.cksum
  {
    var rest := U16(h.uptr) + tail;
    var front := Front(h, []);
    FrontSplit(h, U16(h.cksum) + rest);
    FrontSplit(h.(cksum := 0), U16(0) + rest);
    WordSumConcat(front, U16(h.cksum) + rest, false);
    WordSumConcat(front, U16(0) + rest, false);
    WordSumConcat(U16(h.cksum), rest, false);
    WordSumConcat(U16(0), rest, false);
    WordSumU16(h.cksum);
    WordSumU16(0);
  }

  lemma FrontSplit(h: TcpHeader, tail: bytes)
    ensures Front(h, tail) == Front(h.(cksum := 0), []) + tail
    ensures Front(h, []) == Front(h.(cksum := 0), [])
  {
    FrontAppend(h, [], tail);
    assert [] + tail == tail;
    assert FlagByte(h.(cksum := 0)) == FlagByte(h);
  }

  lemma WordSumU16(v: u16)
    ensures WordSum(U16(v), false) == v
  {
    UnparseAt(v, 2, 0);
    UnparseAt(v, 2, 1);
    assert Shift(v, 1) == Shift(v / 256, 0);
    WordSumPair(v / 256, v % 256);
    assert U16(v) == [v / 256, v % 256];
  }

  lemma WordSumPair(hi: u8, lo: u8)
    ensures WordSum([hi, lo], false) == Weight(hi, false) + Weight(lo, true)
  {
    assert [hi, lo][1..] == [lo] && [lo][1..] == [];
    assert WordSum([lo], true) == Weight(lo, true) + WordSum([], false);
  }

  /** Segments that fit in a datagram, and pseudo-header sums that leave the 32-bit sum room. */
  predicate Sendable(seg: Segment, pseudo: u32) {
    5 <= seg.header.doff <= 15 && 4 * seg.header.doff + |seg.payload| <= 65535 && pseudo < TWO31
  }

  /** Up to 65535 bytes the 32-bit sum does not overflow. */
  lemma SumFits(pseudo: u32, data: bytes)
    requires pseudo < TWO31 && |data| <= 65535
    ensures (pseudo + WordSum(data, false)) % TWO32 == pseudo + WordSum(data, false)
  {
  }

  /** The bytes of a segment check out. */
  lemma SerializedChecksOut(seg: Segment, pseudo: u32)
    requires Sendable(seg, pseudo)
    ensures var data := SerializeSegment(seg, pseudo).value;
            && |data| <= 65535 && Value(pseudo + WordSum(data, false)) == 0
            && data == HeaderBytes(Checksummed(seg, pseudo), Zeros(4 * seg.header.doff - 20) + seg.payload)
  {
    var h, pad := Checksummed(seg, pseudo), Zeros(4 * seg.header.doff - 20);
    var zeroed := seg.header.(cksum := 0);
    HeaderAppend(h, pad, seg.payload);
    HeaderAppend(zeroed, pad, seg.payload);
    var data0 := HeaderBytes(zeroed, pad + seg.payload);
    SumFits(pseudo, data0);
    ChecksumFieldAdds(h, pad + seg.payload);
    assert h.(cksum := 0) == zeroed;
    ValueCompletes(pseudo + WordSum(data0, false));
  }

  /** Bytes that check out are parsed; with any one byte changed they are not. */
  lemma CheckedBytes(data: bytes, pseudo: u32, k: nat, b: u8)
    requires |data| <= 65535 && pseudo < TWO31 && Value(pseudo + WordSum(data, false)) == 0
    ensures ParseSegment(data, pseudo) == ParseChecked(data)
    ensures k < |data| && b != data[k] ==> ParseSegment(data[k := b], pseudo) == (BadChecksum, None)
  {
    SumFits(pseudo, data);
    if k < |data| && b != data[k] {
      OneByteNoticed(data, k, b, pseudo);
      SumFits(pseudo, data[k := b]);
    }
  }

  /** Parsing what was serialized verifies the checksum and returns the segment, with its checksum filled in. */
  lemma SegmentRoundTrip(seg: Segment, pseudo: u32)
    requires Sendable(seg, pseudo)
    ensures SerializeSegment(seg, pseudo).Some?
    ensures ParseSegment(SerializeSegment(seg, pseudo).value, pseudo)
         == (NoError, Some(seg.(header := Checksummed(seg, pseudo))))
  {
    SerializedChecksOut(seg, pseudo);
    ParseWritten(Checksummed(seg, pseudo), seg.payload, SerializeSegment(seg, pseudo).value, pseudo);
  }

  lemma ParseWritten(h: TcpHeader, payload: bytes, data: bytes, pseudo: u32)
    requires 5 <= h.doff <= 15 && data == HeaderBytes(h, Zeros(4 * h.doff - 20) + payload)
    requires |data| <= 65535 && pseudo < TWO31 && Value(pseudo + WordSum(data, false)) == 0
    ensures ParseSegment(data, pseudo) == (NoError, Some(Segment(h, payload)))
  {
    CheckedBytes(data, pseudo, 0, 0);
    HeaderRoundTrip(h, payload);
  }

  /** A segment with any one byte changed on the way is rejected. */
  lemma CorruptionIsRejected(seg: Segment, pseudo: u32, k: nat, b: u8)
    requires Sendable(seg, pseudo)
    requires k < |SerializeSegment(seg, pseudo).value| && b != SerializeSegment(seg, pseudo).value[k]
    ensures ParseSegment(SerializeSegment(seg, pseudo).value[k := b], pseudo) == (BadChecksum, None)
  {
    SerializedChecksOut(seg, pseudo);
    CheckedBytes(SerializeSegment(seg, pseudo).value, pseudo, k, b);
  }

  // ---------- the imperative codec ----------

  method ReadHeader(p: NetParser) returns (h: TcpHeader, result: ParseResult)
    modifies p
    ensures (h, result, p.View()) == ParseHeader(old(p.View()))
  {
    var sport := p.NextU16();
    var dport := p.NextU16();
    var seqno := p.NextU32();
    var ackno := p.NextU32();
    var offset := p.NextU8();
    var flags := p.NextU8();
    var win := p.NextU16();
    var cksum := p.NextU16();
    var uptr := p.NextU16();
    h := Unpack(sport, dport, seqno, ackno, offset, flags, win, cksum, uptr);
    if h.doff < 5 {
      result := HeaderTooShort;
    } else {
      p.RemovePrefix(h.doff * 4 - HEADER_LENGTH);
      result := p.error;
    }
  }

  method WriteHeader(h: TcpHeader) returns (r: Option<bytes>)
    ensures r == SerializeHeader(h)
  {
    if h.doff < 5 {
      return None;
    }
    var s := UnparseInt([], h.sport, 2);
    s := UnparseInt(s, h.dport, 2);
    s := UnparseInt(s, h.seqno, 4);
    s := UnparseInt(s, h.ackno, 4);
    s := UnparseInt(s, (h.doff * 16) % 256, 1);
    s := UnparseInt(s, FlagByte(h), 1);
    s := UnparseInt(s, h.win, 2);
    assert s == Front(h, []) by { FrontFlat(h); }
    s := UnparseInt(s, h.cksum, 2);
    s := UnparseInt(s, h.uptr, 2);
    var pad := Zeros(4 * h.doff - HEADER_LENGTH);
    assert s + pad == Front(h, []) + (U16(h.cksum) + (U16(h.uptr) + pad));
    FrontAppend(h, [], U16(h.cksum) + (U16(h.uptr) + pad));
    assert [] + (U16(h.cksum) + (U16(h.uptr) + pad)) == U16(h.cksum) + (U16(h.uptr) + pad);
    return Some(s + pad);
  }

  /** Appending field by field gives the nested form. */
  lemma FrontFlat(h: TcpHeader)
    ensures [] + U16(h.sport) + U16(h.dport) + U32(h.seqno) + U32(h.ackno) + U8((h.doff * 16) % 256)
            + U8(FlagByte(h)) + U16(h.win) == Front(h, [])
  {
    assert U16(h.win) + [] == U16(h.win);
  }

  /** The checksum over a header of even length and then the payload is the one over both. */
  method ComputeChecksum(pseudo: u32, a: bytes, b: bytes) returns (cksum: u16)
    requires !Odd(|a|)
    ensures cksum == ChecksumOf(pseudo, a + b)
  {
    var check := new InternetChecksum(pseudo);
    check.Add(a);
    check.Add(b);
    cksum := check.Result();
    WordSumConcat(a, b, false);
    WrapStep(pseudo + WordSum(a, false), WordSum(b, false));
  }

  method WriteSegment(seg: Segment, pseudo: u32) returns (r: Option<bytes>)
    ensures r == SerializeSegment(seg, pseudo)
  {
    var header := seg.header.(cksum := 0);
    var first := WriteHeader(header);
    if first.None? {
      return None;
    }
    var cksum := ComputeChecksum(pseudo, first.value, seg.payload);
    header := header.(cksum := cksum);
    var final := WriteHeader(header);
    var list := new BufferList.FromString(final.value);
    var payload := new BufferList.FromString(seg.payload);
    list.Append(payload);
    var all := list.Concatenate(|final.value| + |seg.payload|);
    assert all == final.value + seg.payload;
    return Some(all);
  }

  method ReadSegment(data: bytes, pseudo: u32) returns (result: ParseResult, seg: Option<Segment>)
    ensures (result, seg) == ParseSegment(data, pseudo)
  {
    var check := new InternetChecksum(pseudo);
    check.Add(data);
    var cksum := check.Result();
    if cksum != 0 {
      return BadChecksum, None;
    }
    result, seg := ReadChecked(data);
  }

  method ReadChecked(data: bytes) returns (result: ParseResult, seg: Option<Segment>)
    ensures (result, seg) == ParseChecked(data)
  {
    var p := new NetParser(data);
    var h, ignored := ReadHeader(p);
    return p.error, Some(Segment(h, p.buffer.Str()));
  }
}
