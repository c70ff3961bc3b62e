/**
 32-bit sequence numbers relative to an initial sequence number (ISN), and the
 64-bit absolute numbers they stand for.
 */
module WrappingIntegers {
  import opened Numbers

  /** Truncates an absolute number to 32 bits and shifts it by the ISN. */
  function Wrap(n: nat, isn: u32): (r: u32) {
    (n % TWO32 + isn) % TWO32
  }

  /**
   The absolute number that wraps to `n` nearest to `checkpoint`, computed in
   unsigned 64-bit arithmetic; a zero checkpoint yields the plain offset.
   */
  function Unwrap(n: u32, isn: u32, checkpoint: nat): (r: nat) {
    var offset := (n - isn) % TWO32;
    if checkpoint % TWO32 == 0 && checkpoint <= offset then
      offset
    else
      var overflow := ((checkpoint - offset) % TWO64) / TWO32;
      var left := offset + overflow * TWO32;
      var right := (left + TWO32) % TWO64;
      if (checkpoint - left) % TWO64 < (right - checkpoint) % TWO64 then left else right
  }

  /** The signed distance from `checkpoint` to `a` around the 64-bit circle, in (-2^63, 2^63]. */
  function CyclicDistance(a: int, checkpoint: int): (d: int)
    requires 0 <= a < TWO64 && 0 <= checkpoint < TWO64
    ensures -0x8000_0000_0000_0000 < d <= 0x8000_0000_0000_0000
    ensures (checkpoint + d) % TWO64 == a
  {
    if a - checkpoint > 0x8000_0000_0000_0000 then a - checkpoint - TWO64
    else if a - checkpoint <= -0x8000_0000_0000_0000 then a - checkpoint + TWO64
    else a - checkpoint
  }

  /** Whether `a` is the one number of its residue class that `Unwrap` returns for `checkpoint`. */
  predicate Recoverable(a: nat, checkpoint: nat)
    requires a < TWO64 && checkpoint < TWO64
  {
    if checkpoint == 0 then a < TWO32
    else -TWO31 < CyclicDistance(a, checkpoint) <= TWO31
  }

  /** Two recoverable numbers that wrap alike are equal. */
  lemma RecoverableUnique(a: nat, b: nat, isn: u32, checkpoint: nat)
    requires a < TWO64 && b < TWO64 && checkpoint < TWO64
    requires Recoverable(a, checkpoint) && Recoverable(b, checkpoint)
    requires Wrap(a, isn) == Wrap(b, isn)
    ensures a == b
  {
    assert a % TWO32 == b % TWO32;
    if checkpoint != 0 {
      var da, db := CyclicDistance(a, checkpoint), CyclicDistance(b, checkpoint);
      assert da - db == a - b || da - db == a - b - TWO64 || da - db == a - b + TWO64;
      assert (da - db) % TWO32 == 0;
    }
  }

  /** At or past the offset, the two candidates surround the checkpoint. */
  lemma UnwrapAboveOffset(n: u32, isn: u32, checkpoint: nat)
    requires 0 < checkpoint < TWO64
    requires (n - isn) % TWO32 <= checkpoint
    ensures Unwrap(n, isn, checkpoint) < TWO64
    ensures Unwrap(n, isn, checkpoint) % TWO32 == (n - isn) % TWO32
    ensures -TWO31 < CyclicDistance(Unwrap(n, isn, checkpoint), checkpoint) <= TWO31
  {
    var offset := (n - isn) % TWO32;
    var left := NearestAtOrBelow(offset, checkpoint);
    assert (checkpoint - left) % TWO64 == checkpoint - left;
    if left + TWO32 < TWO64 {
      assert (left + TWO32) % TWO64 == left + TWO32;
      assert (left + TWO32 - checkpoint) % TWO64 == left + TWO32 - checkpoint;
    } else {
      assert (left + TWO32) % TWO64 == left + TWO32 - TWO64;
      assert (left + TWO32 - TWO64 - checkpoint) % TWO64 == left + TWO32 - checkpoint;
    }
  }

  /** The lower candidate of `Unwrap`, computed without wrap-around. */
  lemma NearestAtOrBelow(offset: u32, checkpoint: nat) returns (left: nat)
    requires offset <= checkpoint < TWO64
    ensures left == offset + (((checkpoint - offset) % TWO64) / TWO32) * TWO32
    ensures left <= checkpoint < left + TWO32 && left % TWO32 == offset && (left + TWO32) % TWO32 == offset
    ensures left + TWO32 >= TWO64 ==> (left + TWO32 - TWO64) % TWO32 == offset
  {
    left := offset + ((checkpoint - offset) / TWO32) * TWO32;
    assert (checkpoint - offset) % TWO64 == checkpoint - offset;
  }

  /** Below the offset, the lower candidate lies on the far side of zero. */
  lemma UnwrapBelowOffset(n: u32, isn: u32, checkpoint: nat)
    requires 0 < checkpoint < (n - isn) % TWO32
    ensures Unwrap(n, isn, checkpoint) < TWO64
    ensures Unwrap(n, isn, checkpoint) % TWO32 == (n - isn) % TWO32
    ensures -TWO31 < CyclicDistance(Unwrap(n, isn, checkpoint), checkpoint) <= TWO31
  {
    var offset := (n - isn) % TWO32;
    assert (checkpoint - offset) % TWO64 == checkpoint - offset + TWO64;
    assert (checkpoint - offset + TWO64) / TWO32 == TWO32 - 1;
    var left := offset + TWO64 - TWO32;
    assert (left + TWO32) % TWO64 == offset;
    assert (checkpoint - left) % TWO64 == checkpoint - offset + TWO32;
  }

  /** The number returned wraps to `n`, and is the nearest such number around the 64-bit circle. */
  lemma UnwrapIsNearest(n: u32, isn: u32, checkpoint: nat)
    requires checkpoint < TWO64
    ensures Unwrap(n, isn, checkpoint) < TWO64
    ensures Wrap(Unwrap(n, isn, checkpoint), isn) == n
    ensures Recoverable(Unwrap(n, isn, checkpoint), checkpoint)
  {
    var offset := (n - isn) % TWO32;
    if checkpoint == 0 {
    } else if offset <= checkpoint {
      UnwrapAboveOffset(n, isn, checkpoint);
    } else {
      UnwrapBelowOffset(n, isn, checkpoint);
    }
    OffsetWraps(n, isn, Unwrap(n, isn, checkpoint));
  }

  lemma OffsetWraps(n: u32, isn: u32, r: nat)
    requires r % TWO32 == (n - isn) % TWO32
    ensures Wrap(r, isn) == n
  {
  }

  /** Unwrapping undoes wrapping exactly for the recoverable numbers. */
  lemma UnwrapInvertsWrap(a: nat, isn: u32, checkpoint: nat)
    requires a < TWO64 && checkpoint < TWO64
    ensures Unwrap(Wrap(a, isn), isn, checkpoint) == a <==> Recoverable(a, checkpoint)
  {
    var n := Wrap(a, isn);
    UnwrapIsNearest(n, isn, checkpoint);
    if Recoverable(a, checkpoint) {
      RecoverableUnique(a, Unwrap(n, isn, checkpoint), isn, checkpoint);
    }
  }

  /** The form used by the sender and the receiver: numbers less than 2^31 away come back unchanged. */
  lemma UnwrapNear(a: nat, isn: u32, checkpoint: nat)
    requires a < TWO64 && checkpoint < TWO64
    requires -TWO31 < a - checkpoint <= TWO31
    ensures Unwrap(Wrap(a, isn), isn, checkpoint) == a
  {
    UnwrapInvertsWrap(a, isn, checkpoint);
  }
}
