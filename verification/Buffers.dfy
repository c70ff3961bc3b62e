/**
 Byte strings kept as a list of chunks, each with a number of leading bytes
 already discarded.
 */
module Buffers {
  import opened Numbers

  datatype Option<+T> = None | Some(value: T)

  datatype RawBuffer = RawBuffer(storage: Option<bytes>, offset: nat) {
    predicate InRange() {
      storage.Some? ==> offset <= |storage.value|
    }

    /** The bytes not yet discarded. */
    function Str(): bytes
      requires InRange()
    {
      if storage.None? then [] else storage.value[offset..]
    }
  }

  type Buffer = b: RawBuffer | b.InRange() witness RawBuffer(None, 0)

  function FromBytes(s: bytes): (b: Buffer)
    ensures b.Str() == s
  {
    RawBuffer(Some(s), 0)
  }

  /** Discards the first `n` bytes; `None` stands for the out-of-range exception. */
  function DropFront(b: Buffer, n: nat): (r: Option<Buffer>)
    ensures r.Some? <==> n <= |b.Str()|
    ensures r.Some? ==> r.value.Str() == b.Str()[n..]
  {
    if n > |b.Str()| then None
    else if b.storage.None? then Some(b)
    else if b.offset + n == |b.storage.value| then Some(RawBuffer(None, b.offset + n))
    else Some(RawBuffer(b.storage, b.offset + n))
  }

  /** The string that a list of chunks stands for. */
  function Flatten(chunks: seq<Buffer>): bytes {
    if chunks == [] then [] else chunks[0].Str() + Flatten(chunks[1..])
  }

  lemma {:induction false} FlattenAppend(a: seq<Buffer>, b: seq<Buffer>)
    ensures Flatten(a + b) == Flatten(a) + Flatten(b)
  {
    if a == [] {
      assert a + b == b;
    } else {
      assert (a + b)[1..] == a[1..] + b;
      FlattenAppend(a[1..], b);
    }
  }

  /** One more chunk of a prefix. */
  lemma FlattenNext(chunks: seq<Buffer>, i: nat)
    requires i < |chunks|
    ensures Flatten(chunks[..i + 1]) == Flatten(chunks[..i]) + chunks[i].Str()
  {
    assert chunks[..i + 1] == chunks[..i] + [chunks[i]];
    FlattenSnoc(chunks[..i], chunks[i]);
  }

  lemma FlattenSnoc(chunks: seq<Buffer>, b: Buffer)
    ensures Flatten(chunks + [b]) == Flatten(chunks) + b.Str()
  {
    FlattenAppend(chunks, [b]);
    assert Flatten([b]) == b.Str() + Flatten([]);
  }

  lemma FlattenExtend(chunks: seq<Buffer>, was: bytes, more: seq<Buffer>, i: nat)
    requires i < |more| && Flatten(chunks) == was + Flatten(more[..i])
    ensures Flatten(chunks + [more[i]]) == was + Flatten(more[..i + 1])
  {
    calc {
      Flatten(chunks + [more[i]]);
      { FlattenSnoc(chunks, more[i]); }
      was + Flatten(more[..i]) + more[i].Str();
      { Regroup(was, Flatten(more[..i]), more[i].Str()); }
      was + (Flatten(more[..i]) + more[i].Str());
      { FlattenNext(more, i); }
      was + Flatten(more[..i + 1]);
    }
  }

  lemma DropWithinFront(chunks: seq<Buffer>, n: nat, shorter: Buffer)
    requires chunks != [] && n <= |chunks[0].Str()| && shorter.Str() == chunks[0].Str()[n..]
    ensures Flatten([shorter] + chunks[1..]) == Flatten(chunks)[n..]
  {
    var rest := chunks[1..];
    assert ([shorter] + rest)[1..] == rest;
    DropFromSum(chunks[0].Str(), Flatten(rest), n);
  }

  lemma Regroup(a: bytes, b: bytes, c: bytes)
    ensures a + b + c == a + (b + c)
  {
  }

  /** Taking up to `n` bytes of a longer string. */
  lemma TakeNext(a: bytes, b: bytes, n: nat)
    ensures var s := a[..Min(n, |a|)];
            (a + b)[..Min(n, |a + b|)] == if |s| + |b| <= n then s + b else s + b[..n - |s|]
  {
  }

  lemma DropTwice(s: bytes, a: nat, b: nat)
    ensures a <= |s| && b <= |s| - a ==> s[a..][b..] == s[a + b..]
  {
  }

  lemma DropFromSum(a: bytes, b: bytes, n: nat)
    requires n <= |a|
    ensures (a + b)[n..] == a[n..] + b
  {
  }

  class BufferList {
    var chunks: seq<Buffer>

    ghost function Contents(): bytes
      reads this
    {
      Flatten(chunks)
    }

    constructor ()
      ensures Contents() == []
    {
      chunks := [];
    }

    constructor FromString(s: bytes)
      ensures Contents() == s
    {
      chunks := [FromBytes(s)];
      new;
      FlattenSnoc([], FromBytes(s));
      assert [] + [FromBytes(s)] == [FromBytes(s)];
    }

    /** Appends the chunks of another list. */
    method Append(other: BufferList)
      requires other != this
      modifies this
      ensures Contents() == old(Contents()) + other.Contents()
    {
      var more := other.chunks;
      ghost var was := Contents();
      for i := 0 to |more|
        invariant other.chunks == more
        invariant Contents() == was + Flatten(more[..i])
      {
        FlattenExtend(chunks, was, more, i);
        chunks := chunks + [more[i]];
      }
      assert more[..|more|] == more;
    }

    method Size() returns (n: nat)
      ensures n == |Contents()|
    {
      n := 0;
      for i := 0 to |chunks|
        invariant n == |Flatten(chunks[..i])|
      {
        FlattenNext(chunks, i);
        n := n + |chunks[i].Str()|;
      }
      assert chunks[..|chunks|] == chunks;
    }

    /** A copy of the first `n` bytes, or of everything when there are fewer. */
    method Concatenate(n: nat) returns (s: bytes)
      ensures s == Contents()[..Min(n, |Contents()|)]
    {
      s := [];
      for i := 0 to |chunks|
        invariant s == Flatten(chunks[..i])[..Min(n, |Flatten(chunks[..i])|)]
      {
        FlattenNext(chunks, i);
        var chunk := chunks[i].Str();
        TakeNext(Flatten(chunks[..i]), chunk, n);
        if |s| + |chunk| <= n {
          s := s + chunk;
        } else {
          s := s + chunk[..n - |s|];
        }
      }
      assert chunks[..|chunks|] == chunks;
    }

    /** Discards the first `n` bytes; `false` stands for the out-of-range exception. */
    method RemovePrefix(n: nat) returns (ok: bool)
      modifies this
      ensures ok <==> n <= |old(Contents())|
      ensures Contents() == old(Contents())[Min(n, |old(Contents())|)..]
    {
      var left := n;
      ghost var was := Contents();
      while left > 0
        invariant 0 <= left && n - left <= |was|
        invariant Contents() == was[n - left..]
        decreases left, |chunks|
      {
        if chunks == [] {
          return false;
        }
        var front := chunks[0].Str();
        DropTwice(was, n - left, Min(left, |front|));
        if left < |front| {
          var shorter := DropFront(chunks[0], left);
          DropWithinFront(chunks, left, shorter.value);
          chunks := [shorter.value] + chunks[1..];
          left := 0;
        } else {
          assert Flatten(chunks)[|front|..] == Flatten(chunks[1..]);
          left := left - |front|;
          chunks := chunks[1..];
        }
      }
      return true;
    }
  }
}
