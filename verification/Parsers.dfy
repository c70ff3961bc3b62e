/** Integers in network byte order, read from and written to byte strings. */
module Parsers {
  import opened Numbers
  import opened Buffers

  datatype ParseResult =
    | NoError | BadChecksum | PacketTooShort | WrongIPVersion | HeaderTooShort | TruncatedPacket | Unsupported

  /** What is left to parse, and the first error so far. */
  datatype Reader = Reader(data: bytes, error: ParseResult)

  function CheckSize(p: Reader, n: nat): Reader {
    if n > |p.data| then p.(error := PacketTooShort) else p
  }

  function BigEndian(b: bytes): nat {
    if b == [] then 0 else BigEndian(b[..|b| - 1]) * 256 + b[|b| - 1]
  }

  /** Reads an integer of `len` bytes; nothing is consumed after an error. */
  function ParseInt(p: Reader, len: nat): (nat, Reader) {
    var q := CheckSize(p, len);
    if q.error != NoError then (0, q) else (BigEndian(q.data[..len]), q.(data := q.data[len..]))
  }

  function Skip(p: Reader, n: nat): Reader {
    var q := CheckSize(p, n);
    if q.error != NoError then q else q.(data := q.data[n..])
  }

  /** `val` shifted right by `k` bytes. */
  function Shift(val: nat, k: nat): nat {
    if k == 0 then val else Shift(val / 256, k - 1)
  }

  function Unparse(val: nat, len: nat): (b: bytes)
    ensures |b| == len
  {
    if len == 0 then [] else Unparse(val / 256, len - 1) + [val % 256]
  }

  lemma {:induction false} UnparseAt(val: nat, len: nat, i: nat)
    requires i < len
    ensures Unparse(val, len)[i] == Shift(val, len - 1 - i) % 256
    decreases len
  {
    if i < len - 1 {
      UnparseAt(val / 256, len - 1, i);
    }
  }

  /** An integer that fits comes back. */
  lemma {:induction false} BigEndianUnparse(val: nat, len: nat)
    requires Shift(val, len) == 0
    ensures BigEndian(Unparse(val, len)) == val
    decreases len
  {
    if len > 0 {
      BigEndianUnparse(val / 256, len - 1);
      assert Unparse(val, len)[..len - 1] == Unparse(val / 256, len - 1);
    }
  }

  /** Reading back an integer written in front of `rest`. */
  lemma ParseUnparse(val: nat, len: nat, rest: bytes)
    requires Shift(val, len) == 0
    ensures ParseInt(Reader(Unparse(val, len) + rest, NoError), len) == (val, Reader(rest, NoError))
  {
    var b := Unparse(val, len);
    BigEndianUnparse(val, len);
    assert (b + rest)[..len] == b && (b + rest)[len..] == rest;
  }

  function U8(v: u8): (b: bytes) ensures |b| == 1 { Unparse(v, 1) }
  function U16(v: u16): (b: bytes) ensures |b| == 2 { Unparse(v, 2) }
  function U32(v: u32): (b: bytes) ensures |b| == 4 { Unparse(v, 4) }

  lemma ParseU8(v: u8, rest: bytes)
    ensures ReadU8(Reader(U8(v) + rest, NoError)) == (v, Reader(rest, NoError))
  {
    assert Shift(v, 1) == Shift(v / 256, 0);
    ParseUnparse(v, 1, rest);
  }

  lemma ParseU16(v: u16, rest: bytes)
    ensures ReadU16(Reader(U16(v) + rest, NoError)) == (v, Reader(rest, NoError))
  {
    assert Shift(v, 2) == Shift(v / 256 / 256, 0);
    ParseUnparse(v, 2, rest);
  }

  lemma ParseU32(v: u32, rest: bytes)
    ensures ReadU32(Reader(U32(v) + rest, NoError)) == (v, Reader(rest, NoError))
  {
    assert Shift(v, 4) == Shift(v / 256 / 256, 2) == Shift(v / 256 / 256 / 256 / 256, 0);
    ParseUnparse(v, 4, rest);
  }

  /** What was read is bounded by the width. */
  lemma BigEndianBounded(b: bytes)
    ensures |b| == 1 ==> BigEndian(b) < 0x100
    ensures |b| == 2 ==> BigEndian(b) < 0x1_0000
    ensures |b| == 4 ==> BigEndian(b) < 0x1_0000_0000
  {
    if |b| == 1 {
      assert b[..0] == [];
    } else if |b| == 2 || |b| == 4 {
      BigEndianStep(b);
      BigEndianStep(b[..|b| - 1]);
      if |b| == 4 {
        BigEndianStep(b[..2]);
        BigEndianStep(b[..1]);
        assert b[..3][..2] == b[..2] && b[..2][..1] == b[..1];
      }
    }
  }

  lemma BigEndianStep(b: bytes)
    requires b != []
    ensures BigEndian(b) == BigEndian(b[..|b| - 1]) * 256 + b[|b| - 1]
  {
  }

  function ReadU8(p: Reader): (r: (u8, Reader))
    ensures r == ParseInt(p, 1)
  {
    if |p.data| >= 1 then BigEndianBounded(p.data[..1]); ParseInt(p, 1) else ParseInt(p, 1)
  }

  function ReadU16(p: Reader): (r: (u16, Reader))
    ensures r == ParseInt(p, 2)
  {
    if |p.data| >= 2 then BigEndianBounded(p.data[..2]); ParseInt(p, 2) else ParseInt(p, 2)
  }

  function ReadU32(p: Reader): (r: (u32, Reader))
    ensures r == ParseInt(p, 4)
  {
    if |p.data| >= 4 then BigEndianBounded(p.data[..4]); ParseInt(p, 4) else ParseInt(p, 4)
  }

  class NetParser {
    var buffer: Buffer
    var error: ParseResult

    ghost function View(): Reader
      reads this
    {
      Reader(buffer.Str(), error)
    }

    constructor (data: bytes)
      ensures View() == Reader(data, NoError)
    {
      buffer, error := FromBytes(data), NoError;
    }

    method Check(n: nat)
      modifies this`error
      ensures View() == CheckSize(old(View()), n)
    {
      if n > |buffer.Str()| {
        error := PacketTooShort;
      }
    }

    /** Accumulates the bytes, most significant first. */
    method ReadInt(len: nat) returns (ret: nat)
      modifies this
      ensures (ret, View()) == ParseInt(old(View()), len)
    {
      Check(len);
      if error != NoError {
        return 0;
      }
      var data := buffer.Str();
      ret := 0;
      for i := 0 to len
        invariant len <= |data| && ret == BigEndian(data[..i])
      {
        assert data[..i + 1][..i] == data[..i];
        ret := ret * 256 + data[i];
      }
      buffer := DropFront(buffer, len).value;
    }

    method NextU8() returns (v: u8)
      modifies this
      ensures (v, View()) == ReadU8(old(View()))
    {
      ghost var r := ReadU8(View());
      v := ReadInt(1);
    }

    method NextU16() returns (v: u16)
      modifies this
      ensures (v, View()) == ReadU16(old(View()))
    {
      ghost var r := ReadU16(View());
      v := ReadInt(2);
    }

    method NextU32() returns (v: u32)
      modifies this
      ensures (v, View()) == ReadU32(old(View()))
    {
      ghost var r := ReadU32(View());
      v := ReadInt(4);
    }

    method RemovePrefix(n: nat)
      modifies this
      ensures View() == Skip(old(View()), n)
    {
      Check(n);
      if error == NoError {
        buffer := DropFront(buffer, n).value;
      }
    }
  }

  /** Appends the bytes of an integer, most significant first. */
  method UnparseInt(s: bytes, val: nat, len: nat) returns (r: bytes)
    ensures r == s + Unparse(val, len)
  {
    r := s;
    for i := 0 to len
      invariant r == s + Unparse(val, len)[..i]
    {
      UnparseAt(val, len, i);
      r := r + [Shift(val, len - i - 1) % 256];
    }
    assert Unparse(val, len)[..len] == Unparse(val, len);
  }
}
