/** Whole runs of the reassembler: any interleaving of pushes and reads. */
module ReassemblyRuns {
  import opened Numbers
  import opened Reassembly
  import opened ReassemblyRefinement

  datatype Call = PushCall(data: bytes, index: nat, eof: bool) | ReadCall(n: nat)

  /** A call the reassembler accepts: a push is cut from the logical stream and starts at or below the right edge. */
  ghost predicate LegalCall(r: Reassembler, c: Call, stream: bytes) {
    c.PushCall? ==> Piece(c.index, c.data).CutFrom(stream) && Pushable(r, c.data, c.index)
  }

  function Step(r: Reassembler, c: Call): Reassembler
    requires c.PushCall? ==> Pushable(r, c.data, c.index)
  {
    match c
    case PushCall(data, index, eof) => Push(r, data, index, eof)
    case ReadCall(n) => Read(r, n)
  }

  function MapStep(m: ByteMap, c: Call): ByteMap {
    match c
    case PushCall(data, index, _) => m.Push(data, index)
    case ReadCall(n) => m.Read(n)
  }

  ghost predicate Legal(r: Reassembler, calls: seq<Call>, stream: bytes)
    decreases |calls|
  {
    calls == [] || (LegalCall(r, calls[0], stream) && Legal(Step(r, calls[0]), calls[1..], stream))
  }

  ghost function Run(r: Reassembler, calls: seq<Call>, stream: bytes): Reassembler
    requires Legal(r, calls, stream)
    decreases |calls|
  {
    if calls == [] then r else Run(Step(r, calls[0]), calls[1..], stream)
  }

  function MapRun(m: ByteMap, calls: seq<Call>): ByteMap
    decreases |calls|
  {
    if calls == [] then m else MapRun(MapStep(m, calls[0]), calls[1..])
  }

  lemma CutCompatible(m: ByteMap, data: bytes, index: nat, stream: bytes)
    requires Extends(stream, m.accepted) && Piece(index, data).CutFrom(stream)
    ensures Compatible(m, data, index) && Extends(stream, m.Push(data, index).accepted)
  {
    var p, m' := Piece(index, data), m.Push(data, index);
    forall i | i in m.accepted && index <= i < index + |data| ensures m.accepted[i] == data[i - index] {
      assert p.Has(i);
    }
    forall i | i in m'.accepted ensures i < |stream| && stream[i] == m'.accepted[i] {
      if i !in m.accepted {
        assert p.Has(i);
      }
    }
  }

  lemma StepRefines(r: Reassembler, m: ByteMap, c: Call, stream: bytes)
    requires Refines(r, m) && Extends(stream, m.accepted) && LegalCall(r, c, stream)
    ensures Refines(Step(r, c), MapStep(m, c)) && Extends(stream, MapStep(m, c).accepted)
  {
    match c
    case PushCall(data, index, eof) =>
      CutCompatible(m, data, index, stream);
      PushRefines(r, m, data, index, eof);
    case ReadCall(n) =>
      ReadRefines(r, m, n);
  }

  /** Every run of the reassembler simulates the same run of the byte map. */
  lemma {:induction false} RunRefines(r: Reassembler, m: ByteMap, calls: seq<Call>, stream: bytes)
    requires Refines(r, m) && Extends(stream, m.accepted) && Legal(r, calls, stream)
    ensures Refines(Run(r, calls, stream), MapRun(m, calls)) && Extends(stream, MapRun(m, calls).accepted)
    decreases |calls|
  {
    if calls != [] {
      StepRefines(r, m, calls[0], stream);
      RunRefines(Step(r, calls[0]), MapStep(m, calls[0]), calls[1..], stream);
    }
  }

  lemma NewRefines(capacity: nat)
    ensures Refines(NewReassembler(capacity), ByteMap(map[], 0, capacity))
  {
  }

  /**
   The output is the stream up to the least index not accepted, every accepted
   index beyond it is held by a stored piece with the stream's byte, and the
   pieces lie strictly ahead of the output and at most `capacity` ahead of the
   reader.
   */
  ghost predicate Delivers(r: Reassembler, m: ByteMap, stream: bytes) {
    && r.first == Gap(m.accepted.Keys, 0) <= |stream|
    && r.output.History() == stream[..r.first]
    && (forall i :: i in m.accepted && i >= r.first ==> Covered(r.pieces, i))
    && AllCut(r.pieces, stream)
    && Between(r.pieces, r.first, r.output.BytesRead() + r.capacity)
  }

  lemma RefinesDelivers(r: Reassembler, m: ByteMap, stream: bytes)
    requires Refines(r, m) && Extends(stream, m.accepted)
    ensures Delivers(r, m, stream)
  {
    OutputIsLongestPrefix(r, m);
    forall i | i in m.accepted && i >= r.first ensures Covered(r.pieces, i) {
      assert Accepted(r, i);
    }
  }

  /** Every run from an empty reassembler delivers the stream. */
  lemma RunDelivers(capacity: nat, calls: seq<Call>, stream: bytes)
    requires Legal(NewReassembler(capacity), calls, stream)
    ensures Delivers(Run(NewReassembler(capacity), calls, stream), MapRun(ByteMap(map[], 0, capacity), calls), stream)
  {
    var r0, m0 := NewReassembler(capacity), ByteMap(map[], 0, capacity);
    NewRefines(capacity);
    RunRefines(r0, m0, calls, stream);
    RefinesDelivers(Run(r0, calls, stream), MapRun(m0, calls), stream);
  }

  // ---------- end of stream ----------

  /** The last of `n` bytes is written or stored. */
  ghost predicate EndKnown(r: Reassembler, n: nat) {
    n == 0 || Accepted(r, n - 1)
  }

  /** The output is ended exactly when the end was announced and all `n` bytes are written. */
  ghost predicate EofExact(r: Reassembler, n: nat) {
    && Inv(r) && r.first <= n
    && (forall k :: 0 <= k < |r.pieces| ==> r.pieces[k].End() <= n)
    && (r.eof ==> EndKnown(r, n))
    && (r.output.ended <==> r.eof && r.first == n)
  }

  /** An end-flagged push of `data` that ends at `n` brings the last byte, or finds it written or stored. */
  predicate FinFits(r: Reassembler, data: bytes, n: nat) {
    if data == [] then r.first == n || exists k :: 0 <= k < |r.pieces| && r.pieces[k].End() == n
    else n <= r.RightEdge()
  }

  /** A push of a stream of `n` bytes; the first one flagged with the end has or finds the last byte. */
  predicate EofCall(r: Reassembler, c: Call, n: nat) {
    c.PushCall? ==>
      && (c.data != [] ==> c.index + |c.data| <= n)
      && (c.eof ==> c.index + |c.data| == n && (r.eof || FinFits(r, c.data, n)))
  }

  /** Nothing accepted lies at or beyond `n`. */
  lemma AcceptedBelow(r: Reassembler, n: nat)
    requires Inv(r)
    ensures (r.first <= n && forall k :: 0 <= k < |r.pieces| ==> r.pieces[k].End() <= n)
       <==> (forall i :: Accepted(r, i) ==> i < n)
  {
    if forall i :: Accepted(r, i) ==> i < n {
      if r.first > 0 {
        assert Accepted(r, r.first - 1);
      }
      forall k | 0 <= k < |r.pieces| ensures r.pieces[k].End() <= n {
        assert r.pieces[k].Has(r.pieces[k].End() - 1);
        assert Accepted(r, r.pieces[k].End() - 1);
      }
    }
  }

  /** The first unassembled byte is the least index not accepted. */
  lemma FirstIsLeast(r: Reassembler, n: nat)
    requires Inv(r) && forall i :: 0 <= i < n ==> Accepted(r, i)
    ensures r.first >= n
  {
    assert !Accepted(r, r.first);
  }

  lemma EndKnownIff(r: Reassembler, n: nat)
    requires EofExact(r, n)
    ensures EndKnown(r, n) <==> FinFits(r, [], n)
    ensures EndKnown(r, n) ==> n <= r.RightEdge()
  {
    if k :| 0 <= k < |r.pieces| && r.pieces[k].End() == n {
      assert r.pieces[k].Has(n - 1);
    }
  }

  /** After a push ending at `n`, the last byte is known exactly if the push fits. */
  lemma PushedEnd(r: Reassembler, r': Reassembler, data: bytes, index: nat, n: nat)
    requires EofExact(r, n) && Pushed(r, r', data, index) && index + |data| == n
    ensures EndKnown(r', n) <==> FinFits(r, data, n)
    ensures EndKnown(r, n) ==> FinFits(r, data, n)
  {
    EndKnownIff(r, n);
    if n > 0 {
      assert Accepted(r', n - 1) <==> Accepted(r, n - 1) || (data != [] && n - 1 < r.RightEdge());
    }
  }

  lemma PushedEof(r: Reassembler, r': Reassembler, c: Call, n: nat)
    requires EofExact(r, n) && c.PushCall? && EofCall(r, c, n)
    requires Pushed(r, r', c.data, c.index) && PushOutcome(r, r', c.data, c.index, c.eof)
    ensures EofExact(r', n)
  {
    AcceptedBelow(r, n);
    AcceptedBelow(r', n);
    if c.eof {
      PushedEnd(r, r', c.data, c.index, n);
    } else if n > 0 {
      assert Accepted(r, n - 1) ==> Accepted(r', n - 1);
    }
    if r.output.ended || (c.eof && c.data != [] && c.index <= r.first) {
      forall i | 0 <= i < n ensures Accepted(r', i) {
        assert Accepted(r, i) || (c.index <= i < c.index + |c.data| && i < r.RightEdge());
      }
      FirstIsLeast(r', n);
    }
    assert r'.first == n ==> r'.pieces == [];
  }

  lemma StepEof(r: Reassembler, c: Call, n: nat)
    requires EofExact(r, n) && EofCall(r, c, n) && (c.PushCall? ==> Pushable(r, c.data, c.index))
    ensures EofExact(Step(r, c), n)
  {
    match c
    case PushCall(data, index, eof) =>
      PushKeeps(r, data, index, eof);
      PushedEof(r, Push(r, data, index, eof), c, n);
    case ReadCall(k) =>
      ReadKeeps(r, k);
  }

  ghost predicate LegalEof(r: Reassembler, calls: seq<Call>, n: nat)
    decreases |calls|
  {
    calls == [] || (
      && EofCall(r, calls[0], n) && (calls[0].PushCall? ==> Pushable(r, calls[0].data, calls[0].index))
      && LegalEof(Step(r, calls[0]), calls[1..], n))
  }

  ghost function RunEof(r: Reassembler, calls: seq<Call>, n: nat): Reassembler
    requires LegalEof(r, calls, n)
    decreases |calls|
  {
    if calls == [] then r else RunEof(Step(r, calls[0]), calls[1..], n)
  }

  /** In every run whose end-flagged pushes fit, the output ends exactly when all bytes are written. */
  lemma {:induction false} RunEofExact(r: Reassembler, calls: seq<Call>, n: nat)
    requires EofExact(r, n) && LegalEof(r, calls, n)
    ensures EofExact(RunEof(r, calls, n), n)
    decreases |calls|
  {
    if calls != [] {
      StepEof(r, calls[0], n);
      RunEofExact(Step(r, calls[0]), calls[1..], n);
    }
  }

  /**
   The header promises that a partially accepted substring has its end flag
   disregarded. It is not: two bytes pushed into room for one end the output
   after the first.
   */
  lemma TruncatedPushEndsStream()
    ensures var r := Push(NewReassembler(1), [7, 8], 0, true);
            r.output.ended && r.output.History() == [7]
  {
    var r := NewReassembler(1);
    var clip := Clip(r.(eof := true), [7, 8], 0);
    assert clip == Piece(0, [7]);
    assert Absorb(r.(eof := true), clip) == Work([], clip, 0);
  }

  /** Nor when the truncated substring is stored: the output ends once the byte before it arrives, without the last. */
  lemma TruncatedPushEndsStreamLater(capacity: nat, x: u8, y: u8, z: u8)
    requires capacity == 2
    ensures var r := Push(NewReassembler(capacity), [y, z], 1, true);
            !r.output.ended && Push(r, [x], 0, false).output.ended && Push(r, [x], 0, false).first == 2
  {
    var r0 := NewReassembler(capacity);
    var r := Push(r0, [y, z], 1, true);
    PushKeeps(r0, [y, z], 1, true);
    StoredAhead(r0, r, [y, z]);
    PushKeeps(r, [x], 0, false);
    StoreDrained(r, Push(r, [x], 0, false), [x], 0, 2);
  }

  lemma StoredAhead(r: Reassembler, r': Reassembler, data: bytes)
    requires r == NewReassembler(2) && |data| == 2 && Pushed(r, r', data, 1) && PushOutcome(r, r', data, 1, true)
    ensures !r'.output.ended && r'.eof && r'.first == 0 && r'.RightEdge() == 2
    ensures forall i :: Accepted(r', i) <==> i == 1
  {
    assert !Accepted(r', 0) && Accepted(r', 1);
  }

  // ---------- the first end flag ----------

  /** The end flags of the pushes are set only at the end of the stream. */
  predicate Truthful(calls: seq<Call>, n: nat) {
    forall i :: 0 <= i < |calls| && calls[i].PushCall? && calls[i].eof ==> calls[i].index + |calls[i].data| == n
  }

  /** Whatever pushes of `stream` and reads follow, the output does not end before it is complete. */
  ghost predicate NeverEndsEarly(r: Reassembler, stream: bytes) {
    forall calls :: Legal(r, calls, stream) && Truthful(calls, |stream|) ==>
      (Run(r, calls, stream).output.ended ==> Run(r, calls, stream).output.History() == stream)
  }

  lemma CutMatches(data: bytes, index: nat, stream: bytes, edge: int)
    requires Piece(index, data).CutFrom(stream)
    ensures Matches(stream, data, index, edge)
    ensures data != [] ==> index + |data| <= |stream|
  {
    var p := Piece(index, data);
    assert data != [] ==> p.Has(p.End() - 1);
    forall i | Offered(i, data, index, edge) ensures i < |stream| && stream[i] == data[i - index] {
      assert p.Has(i);
    }
  }

  /** Once the last byte is known, nothing that follows ends the output early. */
  lemma {:induction false} KnownEndStaysExact(r: Reassembler, calls: seq<Call>, stream: bytes)
    requires EofExact(r, |stream|) && Agrees(r, stream) && r.eof
    requires Legal(r, calls, stream) && Truthful(calls, |stream|)
    ensures EofExact(Run(r, calls, stream), |stream|) && Agrees(Run(r, calls, stream), stream)
    decreases |calls|
  {
    if calls != [] {
      var c := calls[0];
      match c {
        case PushCall(data, index, eof) =>
          CutMatches(data, index, stream, r.RightEdge());
          PushKeeps(r, data, index, eof);
        case ReadCall(k) =>
          ReadKeeps(r, k);
      }
      StepEof(r, c, |stream|);
      KnownEndStaysExact(Step(r, c), calls[1..], stream);
    }
  }

  lemma CompleteOutput(r: Reassembler, stream: bytes)
    requires Inv(r) && Agrees(r, stream)
    ensures r.output.History() == stream <==> r.first == |stream|
  {
    assert |r.output.History()| == r.first;
  }

  /** The greatest end of a stored piece. */
  lemma {:induction false} LastStored(pieces: seq<Piece>) returns (last: nat)
    requires pieces != []
    ensures exists k :: 0 <= k < |pieces| && pieces[k].End() == last
    ensures forall k :: 0 <= k < |pieces| ==> pieces[k].End() <= last
    decreases |pieces|
  {
    var front, p := pieces[..|pieces| - 1], pieces[|pieces| - 1];
    assert p == pieces[|pieces| - 1];
    if front == [] {
      last := p.End();
    } else {
      last := LastStored(front);
      if p.End() > last {
        last := p.End();
      }
    }
  }

  /** A push that closes the gap up to the last stored byte empties the store. */
  lemma StoreDrained(r: Reassembler, r': Reassembler, data: bytes, index: nat, last: nat)
    requires Inv(r) && Pushed(r, r', data, index) && index <= r.first <= last
    requires forall i :: r.first <= i < last ==>
               Accepted(r, i) || (index <= i < index + |data| && i < r.RightEdge())
    requires forall i :: Accepted(r, i) || (index <= i < index + |data| && i < r.RightEdge()) ==> i < last
    ensures r'.pieces == [] && r'.first == last
  {
    forall i | 0 <= i < last ensures Accepted(r', i) {
      assert i < r.first ==> Accepted(r, i);
    }
    FirstIsLeast(r', last);
    assert !Accepted(r, last) && !Accepted(r', last);
    if r'.pieces != [] {
      assert r'.pieces[0].Has(r'.pieces[0].index);
      assert Accepted(r', r'.pieces[0].index);
    }
  }

  /** While the last byte is missing and the end announced, filling the gap before what is stored ends the output. */
  lemma GapFillEnds(r: Reassembler, stream: bytes) returns (c: Call)
    requires Inv(r) && Agrees(r, stream) && r.eof && r.pieces != []
    requires (forall i :: Accepted(r, i) ==> i < |stream|) && !EndKnown(r, |stream|)
    ensures c.PushCall? && !c.eof && c.index == r.first && c.data != [] && c.index + |c.data| < |stream|
    ensures c.data == stream[c.index..c.index + |c.data|]
    ensures LegalCall(r, c, stream)
    ensures var r' := Step(r, c); r'.output.ended && r'.pieces == [] && r'.first < |stream|
  {
    var last := LastStored(r.pieces);
    StoredBelow(r, last, |stream|);
    c := PushCall(stream[r.first..last], r.first, false);
    PushKeeps(r, c.data, c.index, false);
    GapFilled(r, Step(r, c), c.data, last);
  }

  lemma StoredBelow(r: Reassembler, last: nat, n: nat)
    requires Inv(r) && !EndKnown(r, n) && forall i :: Accepted(r, i) ==> i < n
    requires exists k :: 0 <= k < |r.pieces| && r.pieces[k].End() == last
    ensures r.first < last < n && last <= r.RightEdge()
  {
    var k :| 0 <= k < |r.pieces| && r.pieces[k].End() == last;
    assert r.pieces[k].Has(last - 1);
    assert Accepted(r, last - 1);
  }

  lemma GapFilled(r: Reassembler, r': Reassembler, data: bytes, last: nat)
    requires Inv(r) && r.eof && r.first < last <= r.RightEdge() && |data| == last - r.first
    requires forall k :: 0 <= k < |r.pieces| ==> r.pieces[k].End() <= last
    requires Pushed(r, r', data, r.first) && PushOutcome(r, r', data, r.first, false)
    ensures r'.output.ended && r'.pieces == [] && r'.first == last
  {
    AcceptedBelow(r, last);
    StoreDrained(r, r', data, r.first, last);
  }

  /** A first end-flagged push leaves the output exact if and only if it has or finds the last byte. */
  lemma FinExactIff(r: Reassembler, data: bytes, index: nat, n: nat)
    requires EofExact(r, n) && !r.eof && Pushable(r, data, index) && index + |data| == n
    ensures EofExact(Push(r, data, index, true), n) <==> FinFits(r, data, n)
  {
    var r' := Push(r, data, index, true);
    PushKeeps(r, data, index, true);
    PushedEnd(r, r', data, index, n);
    if FinFits(r, data, n) {
      PushedEof(r, r', PushCall(data, index, true), n);
    }
  }

  /** Without the last byte the end flag ends the output early, at once or after one more push. */
  lemma UnfitEndsEarly(r: Reassembler, stream: bytes)
    requires Inv(r) && Agrees(r, stream) && r.eof && (r.pieces == [] ==> r.output.ended)
    requires (forall i :: Accepted(r, i) ==> i < |stream|) && !EndKnown(r, |stream|)
    ensures !NeverEndsEarly(r, stream)
  {
    assert r.first < |stream|;
    if r.pieces == [] {
      CompleteOutput(r, stream);
      assert Legal(r, [], stream) && Truthful([], |stream|) && Run(r, [], stream) == r;
    } else {
      var c := GapFillEnds(r, stream);
      PushKeeps(r, c.data, c.index, false);
      CutMatches(c.data, c.index, stream, r.RightEdge());
      CompleteOutput(Step(r, c), stream);
      OneCall(r, c, stream);
      assert Truthful([c], |stream|);
    }
  }

  lemma OneCall(r: Reassembler, c: Call, stream: bytes)
    requires LegalCall(r, c, stream)
    ensures Legal(r, [c], stream) && Run(r, [c], stream) == Step(r, c)
  {
    assert [c][1..] == [];
  }

  /**
   The exact condition, checkable before the call, under which a first end flag
   ends the output in no continuation before the stream is complete.
   */
  lemma FinNeverEndsEarlyIff(r: Reassembler, data: bytes, index: nat, stream: bytes)
    requires EofExact(r, |stream|) && Agrees(r, stream) && !r.eof && Pushable(r, data, index)
    requires Piece(index, data).CutFrom(stream) && index + |data| == |stream|
    ensures NeverEndsEarly(Push(r, data, index, true), stream) <==> FinFits(r, data, |stream|)
  {
    var r', n := Push(r, data, index, true), |stream|;
    PushKeeps(r, data, index, true);
    CutMatches(data, index, stream, r.RightEdge());
    PushedEnd(r, r', data, index, n);
    AcceptedBelow(r, n);
    if FinFits(r, data, n) {
      FinExactIff(r, data, index, n);
      forall calls | Legal(r', calls, stream) && Truthful(calls, n)
        ensures Run(r', calls, stream).output.ended ==> Run(r', calls, stream).output.History() == stream
      {
        KnownEndStaysExact(r', calls, stream);
        CompleteOutput(Run(r', calls, stream), stream);
      }
    } else {
      UnfitEndsEarly(r', stream);
    }
  }
}
