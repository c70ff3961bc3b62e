/** The Internet checksum of RFC 1071 section 1. */
module Checksums {
  import opened Numbers

  /** A byte's share of its 16-bit word. */
  function Weight(b: u8, low: bool): (w: nat)
    ensures w <= 65280 && (low ==> w <= 255)
  {
    var w: int := b;
    if low then w else 256 * w
  }

  /** The sum of the bytes as big-endian 16-bit words; `low` says that the first byte is a low one. */
  function WordSum(data: bytes, low: bool): (sum: nat)
    ensures 2 * sum <= 65535 * |data| + (if low then 0 else 65025)
  {
    if data == [] then 0
    else Weight(data[0], low) + WordSum(data[1..], !low)
  }

  predicate Odd(n: nat) {
    n % 2 == 1
  }

  /** Adding in pieces is adding the concatenation. */
  lemma {:induction false} WordSumConcat(a: bytes, b: bytes, low: bool)
    ensures WordSum(a + b, low) == WordSum(a, low) + WordSum(b, low != Odd(|a|))
    decreases |a|
  {
    if a == [] {
      assert a + b == b;
    } else {
      assert (a + b)[1..] == a[1..] + b;
      WordSumConcat(a[1..], b, !low);
      assert Odd(|a|) != Odd(|a[1..]|);
    }
  }

  /** Adds the carries back until 16 bits are left. */
  function Fold(x: nat): (r: nat)
    ensures r <= 0xffff
    decreases x
  {
    if x > 0xffff then Fold(x / 0x1_0000 + x % 0x1_0000) else x
  }

  /** Folding keeps the sum modulo 65535, and keeps it from becoming zero. */
  lemma {:induction false} FoldKeeps(x: nat)
    ensures Fold(x) % 65535 == x % 65535
    ensures Fold(x) == 0 <==> x == 0
    decreases x
  {
    if x > 0xffff {
      var y := x / 0x1_0000 + x % 0x1_0000;
      FoldKeeps(y);
      assert x == y + 65535 * (x / 0x1_0000);
      ModSame(y, x / 0x1_0000);
    }
  }

  lemma ModSame(y: nat, k: nat)
    ensures (y + 65535 * k) % 65535 == y % 65535
  {
  }

  function Value(sum: nat): (v: u16) {
    0xffff - Fold(sum)
  }

  /** The checksum of a sum is zero exactly for the positive multiples of 65535. */
  lemma ValueZeroIff(sum: nat)
    ensures Value(sum) == 0 <==> sum > 0 && sum % 65535 == 0
  {
    FoldKeeps(sum);
  }

  /** Adding the checksum to the sum it was computed from makes the checksum zero. */
  lemma ValueCompletes(sum: nat)
    ensures Value(sum + Value(sum)) == 0
  {
    FoldKeeps(sum);
    Complement(sum, Fold(sum));
    ValueZeroIff(sum + Value(sum));
  }

  lemma Complement(sum: nat, f: nat)
    requires f <= 65535 && f % 65535 == sum % 65535 && (f == 0 <==> sum == 0)
    ensures (sum + (65535 - f)) % 65535 == 0 && sum + (65535 - f) > 0
  {
    if f < 65535 {
      assert sum == 65535 * (sum / 65535) + f;
      assert sum + (65535 - f) == 0 + 65535 * (sum / 65535 + 1);
      ModSame(0, sum / 65535 + 1);
    }
  }

  /** The sum after one byte is replaced. */
  lemma WordSumReplace(data: bytes, k: nat, b: u8)
    requires k < |data|
    ensures WordSum(data[k := b], false)
         == WordSum(data, false) - Weight(data[k], Odd(k)) + Weight(b, Odd(k))
  {
    var rest := data[k + 1..];
    assert data == data[..k] + ([data[k]] + rest) && data[k := b] == data[..k] + ([b] + rest);
    WordSumConcat(data[..k], [data[k]] + rest, false);
    WordSumConcat(data[..k], [b] + rest, false);
    assert ([data[k]] + rest)[1..] == rest && ([b] + rest)[1..] == rest;
  }

  /** Changing one byte of data that checks out is always noticed, however often the 32-bit sum wraps around. */
  lemma OneByteNoticed(data: bytes, k: nat, b: u8, initial: nat)
    requires k < |data| && b != data[k]
    requires Value((initial + WordSum(data, false)) % TWO32) == 0
    ensures Value((initial + WordSum(data[k := b], false)) % TWO32) != 0
  {
    var sum, d := initial + WordSum(data, false), Weight(b, Odd(k)) - Weight(data[k], Odd(k));
    WordSumReplace(data, k, b);
    ValueZeroIff(sum % TWO32);
    ValueZeroIff((sum + d) % TWO32);
    WrappedApart(sum, d);
  }

  /** A small change moves the wrapped sum by itself, or by itself and one turn. */
  lemma WrappedApart(sum: nat, d: int)
    requires d != 0 && -65281 < d < 65281 && sum + d >= 0
    requires sum % TWO32 > 0 && (sum % TWO32) % 65535 == 0
    ensures (sum + d) % TWO32 == 0 || ((sum + d) % TWO32) % 65535 != 0
  {
    var r, r' := sum % TWO32, (sum + d) % TWO32;
    assert r >= 65535;
    if r + d >= TWO32 {
      assert r' == r + d - TWO32;
      if d > 1 {
        NotMultiple(r, d, 1);
      }
    } else {
      assert r' == r + d;
      NotMultiple(r, d, 0);
    }
  }

  /** A turn of 32 bits counts for one modulo 65535. */
  lemma NotMultiple(r: nat, d: int, turn: int)
    requires r % 65535 == 0 && d != turn && -65535 < d - turn < 65535 && r + d - turn * TWO32 >= 0
    ensures (r + d - turn * TWO32) % 65535 != 0
  {
    assert r == 65535 * (r / 65535);
    assert turn * TWO32 == 65535 * (65537 * turn) + turn;
    if d > turn {
      RemainderIs(r / 65535 - 65537 * turn, d - turn);
    } else {
      RemainderIs(r / 65535 - 65537 * turn - 1, 65535 + d - turn);
    }
  }

  lemma NotMultipleNearby(sum: nat, d: int)
    requires sum % 65535 == 0 && d != 0 && -65535 < d < 65535 && sum + d >= 0
    ensures (sum + d) % 65535 != 0
  {
    NotMultiple(sum, d, 0);
  }

  lemma RemainderIs(q: int, m: nat)
    requires m < 65535
    ensures (65535 * q + m) % 65535 == m
  {
  }

  class InternetChecksum {
    var sum: u32
    var low: bool

    constructor (initial: u32)
      ensures sum == initial && !low
    {
      sum, low := initial, false;
    }

    /** Adds bytes, wherever the previous call stopped, in 32-bit arithmetic. */
    method Add(data: bytes)
      modifies this
      ensures sum == (old(sum) + WordSum(data, old(low))) % TWO32
      ensures low == (old(low) != Odd(|data|))
    {
      ghost var start, startLow := sum, low;
      for i := 0 to |data|
        invariant sum == (start + WordSum(data[..i], startLow)) % TWO32
        invariant low == (startLow != Odd(i))
      {
        AddStep(data, i, start, startLow);
        sum := (sum + Weight(data[i], low)) % TWO32;
        low := !low;
      }
      assert data[..|data|] == data;
    }

    /** The fold, done on a local copy. */
    method Result() returns (v: u16)
      ensures v == Value(sum)
    {
      var ret := sum;
      while ret > 0xffff
        invariant Fold(ret) == Fold(sum)
        decreases ret
      {
        ret := ret / 0x1_0000 + ret % 0x1_0000;
      }
      v := 0xffff - ret;
    }
  }

  lemma WordSumNext(data: bytes, i: nat, low: bool)
    requires i < |data|
    ensures WordSum(data[..i + 1], low)
         == WordSum(data[..i], low) + Weight(data[i], low != Odd(i))
  {
    assert data[..i + 1] == data[..i] + [data[i]];
    WordSumConcat(data[..i], [data[i]], low);
    assert [data[i]][1..] == [];
  }

  lemma AddStep(data: bytes, i: nat, start: nat, low: bool)
    requires i < |data|
    ensures ((start + WordSum(data[..i], low)) % TWO32 + Weight(data[i], low != Odd(i))) % TWO32
         == (start + WordSum(data[..i + 1], low)) % TWO32
  {
    WordSumNext(data, i, low);
    WrapStep(start + WordSum(data[..i], low), Weight(data[i], low != Odd(i)));
  }

  lemma WrapStep(x: nat, val: nat)
    ensures ((x % TWO32) + val) % TWO32 == (x + val) % TWO32
  {
  }
}
