/** When the number of unassembled bytes that the reassembler reports counts each stored index once. */
module StoredCounts {
  import opened Numbers
  import opened Reassembly
  import opened ReassemblyRefinement

  // ---------- counting ----------

  ghost function Range(p: Piece): set<int> {
    set i: int | p.index <= i < p.End() && p.Has(i)
  }

  /** The indices that the pieces hold. */
  ghost function Stored(pieces: seq<Piece>): set<int> {
    if pieces == [] then {} else Range(pieces[0]) + Stored(pieces[1..])
  }

  lemma {:induction false} StoredIff(pieces: seq<Piece>, i: int)
    ensures i in Stored(pieces) <==> Covered(pieces, i)
    decreases |pieces|
  {
    if pieces != [] {
      StoredIff(pieces[1..], i);
      assert Remove(pieces, 0) == pieces[1..];
      RemoveCovered(pieces, 0, i);
    }
  }

  lemma {:induction false} RangeSize(p: Piece)
    ensures |Range(p)| == |p.data|
    decreases |p.data|
  {
    if p.data == [] {
      assert forall i :: !p.Has(i);
      assert Range(p) == {};
    } else {
      var q := Piece(p.index, p.data[..|p.data| - 1]);
      RangeSize(q);
      assert forall i :: p.Has(i) <==> q.Has(i) || i == p.End() - 1;
      assert Range(p) == Range(q) + {p.End() - 1};
    }
  }

  /** No stored piece reaches into a later one. */
  ghost predicate Disjoint(pieces: seq<Piece>) {
    forall a, b :: a in pieces && b in pieces && a.index < b.index ==> a.End() <= b.index
  }

  ghost predicate Before(p: Piece, rest: seq<Piece>) {
    forall q :: q in rest ==> p.End() <= q.index
  }

  lemma DisjointFront(pieces: seq<Piece>)
    requires pieces != [] && Sorted(pieces)
    ensures Disjoint(pieces) <==> Disjoint(pieces[1..]) && Before(pieces[0], pieces[1..])
  {
    var p, rest := pieces[0], pieces[1..];
    assert pieces == [p] + rest;
    forall q | q in rest ensures p.index < q.index {
      var k :| 0 <= k < |rest| && rest[k] == q;
      assert pieces[k + 1] == q;
    }
  }

  lemma BeforeIff(p: Piece, rest: seq<Piece>, lo: int, hi: int)
    requires Between(rest, lo, hi) && forall k :: 0 <= k < |rest| ==> p.index < rest[k].index
    ensures Before(p, rest) <==> Range(p) !! Stored(rest)
  {
    if Before(p, rest) {
      forall i | i in Range(p) ensures i !in Stored(rest) {
        StoredIff(rest, i);
        assert forall k :: 0 <= k < |rest| ==> rest[k] in rest && !rest[k].Has(i);
      }
    } else {
      var q :| q in rest && p.End() > q.index;
      var k :| 0 <= k < |rest| && rest[k] == q;
      assert rest[k].Has(q.index) && p.Has(q.index);
      StoredIff(rest, q.index);
      assert q.index in Range(p) && q.index in Stored(rest);
    }
  }

  /** The sizes of the pieces add up to the number of indices exactly when they are disjoint. */
  lemma {:induction false} TotalIsStoredIff(pieces: seq<Piece>, lo: int, hi: int)
    requires Sorted(pieces) && Between(pieces, lo, hi)
    ensures |Stored(pieces)| <= Total(pieces)
    ensures |Stored(pieces)| == Total(pieces) <==> Disjoint(pieces)
    decreases |pieces|
  {
    if pieces != [] {
      var p, rest := pieces[0], pieces[1..];
      DisjointFront(pieces);
      BeforeIff(p, rest, lo, hi);
      TotalIsStoredIff(rest, lo, hi);
      RangeSize(p);
      UnionSize(Range(p), Stored(rest));
    }
  }

  lemma UnionSize(a: set<int>, b: set<int>)
    ensures |a + b| <= |a| + |b| && (|a + b| == |a| + |b| <==> a !! b)
  {
    assert |a + b| + |a * b| == |a| + |b|;
    if a !! b {
      assert a * b == {};
    }
    if a * b == {} {
      forall x | x in a ensures x !in b {
        assert x !in a * b;
      }
    }
  }

  // ---------- what merging leaves over ----------

  /** Every piece left is an old one, and the merged piece starts where it did or where an old one does. */
  ghost predicate From(w: Work, w': Work) {
    && (forall q :: q in w'.pieces ==> q in w.pieces)
    && (w'.piece.index == w.piece.index || exists q :: q in w.pieces && q.index == w'.piece.index)
  }

  lemma RemoveMembers(pieces: seq<Piece>, k: nat)
    requires k < |pieces|
    ensures forall q :: q in Remove(pieces, k) ==> q in pieces
  {
  }

  lemma {:induction false} ReachesFrom(w: Work, w': Work, ks: seq<nat>)
    requires Reaches(w, w', ks)
    ensures From(w, w')
    decreases |ks|
  {
    if ks != [] {
      RemoveMembers(w.pieces, ks[0]);
      assert w.pieces[ks[0]] in w.pieces;
      ReachesFrom(MergeAt(w, ks[0]), w', ks[1..]);
    }
  }

  lemma FromTrans(w: Work, w1: Work, w2: Work)
    requires From(w, w1) && From(w1, w2)
    ensures From(w, w2)
  {
  }

  lemma {:induction false} BackwardLowers(w: Work, at: nat)
    requires at <= |w.pieces|
    ensures MergeBackward(w, at).piece.index <= w.piece.index
    decreases |w.pieces|
  {
    if at > 0 {
      var k := if at == |w.pieces| then at - 1 else at;
      if Merge(w.piece, w.pieces[k]).Some? && k > 0 {
        BackwardLowers(MergeAt(w, k), k - 1);
      }
    }
  }

  /** The forward loop leaves the start of the piece, and what lies before it, alone. */
  lemma {:induction false} ForwardLeaves(w: Work, at: nat)
    requires Sorted(w.pieces) && SplitAt(w, at)
    ensures MergeForward(w, at).piece.index == w.piece.index
    ensures |MergeForward(w, at).pieces| >= at && MergeForward(w, at).pieces[..at] == w.pieces[..at]
    decreases |w.pieces|
  {
    if at < |w.pieces| && Merge(w.piece, w.pieces[at]).Some? {
      var w' := MergeAt(w, at);
      assert Sorted(w'.pieces) && SplitAt(w', at);
      ForwardLeaves(w', at);
      assert w'.pieces[..at] == w.pieces[..at];
    }
  }

  // ---------- the backward loop ----------

  /** The predecessor of `p` reaches into it, and the loop never gets to it. */
  predicate Skipped(pieces: seq<Piece>, p: Piece) {
    var k := LowerBound(pieces, p.index);
    && 0 < k < |pieces| && pieces[k - 1].End() > p.index
    && (p.End() < pieces[k].index || k == 1)
  }

  /** Unless it is skipped, a predecessor that reaches into `p` is merged. */
  lemma PredecessorMerges(w: Work, k: nat)
    requires k == LowerBound(w.pieces, w.piece.index) && k > 0 && w.pieces[k - 1].End() > w.piece.index
    requires !Skipped(w.pieces, w.piece)
    ensures MergeBackward(w, k).piece.index < w.piece.index
  {
    if k == |w.pieces| {
      LowersTo(w, k, k - 1);
    } else {
      var w1 := MergeAt(w, k);
      assert w1.pieces[k - 1] == w.pieces[k - 1];
      BackwardStep(w, k, k);
      LowersTo(w1, k - 1, k - 1);
    }
  }

  lemma LowersTo(w: Work, at: nat, k: nat)
    requires 0 < at <= |w.pieces| && k == (if at == |w.pieces| then at - 1 else at)
    requires w.pieces[k].index < w.piece.index < w.pieces[k].End()
    ensures MergeBackward(w, at).piece.index < w.piece.index
  {
    BackwardStep(w, at, k);
    if k > 0 {
      BackwardLowers(MergeAt(w, k), k - 1);
    }
  }

  /** A skipped predecessor stays, and so does the start of the piece. */
  lemma SkippedStays(w: Work, k: nat)
    requires k == LowerBound(w.pieces, w.piece.index) && Skipped(w.pieces, w.piece)
    ensures var back := MergeBackward(w, k);
            && back.piece.index == w.piece.index && |back.pieces| >= k && back.pieces[k - 1] == w.pieces[k - 1]
  {
    BackwardStep(w, k, k);
  }

  // ---------- one push ----------

  /** A piece that is left reaches into the merged one. */
  ghost predicate Overlaps(w: Work) {
    exists q :: q in w.pieces && q.index < w.piece.index < q.End()
  }

  lemma AbsorbFrom(r: Reassembler, p: Piece)
    ensures From(Work(r.pieces, p, r.count), Absorb(r, p))
  {
    var w, at := Work(r.pieces, p, r.count), LowerBound(r.pieces, p.index);
    var back := MergeBackward(w, at);
    var ks := BackwardSteps(w, at);
    ReachesFrom(w, back, ks);
    ks := ForwardSteps(back, LowerBound(back.pieces, back.piece.index));
    ReachesFrom(back, Absorb(r, p), ks);
    FromTrans(w, back, Absorb(r, p));
  }

  /** What the backward loop leaves, the forward loop finds split at the start of the piece. */
  lemma AbsorbForward(r: Reassembler, p: Piece, back: Work)
    requires Inv(r) && r.first <= p.index && p.End() <= r.RightEdge()
    requires back == MergeBackward(Work(r.pieces, p, r.count), LowerBound(r.pieces, p.index))
    ensures Absorb(r, p).piece.index == back.piece.index
    ensures forall j :: 0 <= j < |back.pieces| && back.pieces[j].index < back.piece.index ==>
              back.pieces[j] in Absorb(r, p).pieces
  {
    var w, lo, hi := Work(r.pieces, p, r.count), r.first, r.RightEdge();
    var ks := BackwardSteps(w, LowerBound(r.pieces, p.index));
    ReachesKeeps(w, back, ks, lo, hi);
    var at := LowerBound(back.pieces, back.piece.index);
    LowerBoundSplits(back.pieces, back.piece.index);
    ForwardLeaves(back, at);
    var w' := MergeForward(back, at);
    forall j | 0 <= j < |back.pieces| && back.pieces[j].index < back.piece.index ensures back.pieces[j] in w'.pieces {
      assert j < at;
      assert w'.pieces[..at][j] == back.pieces[j];
    }
  }

  lemma DisjointAt(pieces: seq<Piece>, i: nat, j: nat)
    requires Sorted(pieces) && Disjoint(pieces) && i < j < |pieces|
    ensures pieces[i].End() <= pieces[j].index
  {
    assert pieces[i] in pieces && pieces[j] in pieces;
  }

  lemma OverlapIsPredecessor(pieces: seq<Piece>, p: Piece, j: nat, k: nat)
    requires Sorted(pieces) && Disjoint(pieces) && k == LowerBound(pieces, p.index)
    requires j < |pieces| && pieces[j].index < p.index < pieces[j].End()
    ensures j == k - 1
  {
    LowerBoundSplits(pieces, p.index);
    if j < k - 1 {
      DisjointAt(pieces, j, k - 1);
    }
  }

  /** The merged piece overlaps what is left exactly when its predecessor was skipped. */
  lemma OverlapsIff(r: Reassembler, p: Piece)
    requires Inv(r) && Disjoint(r.pieces) && r.first <= p.index && p.End() <= r.RightEdge()
    ensures Overlaps(Absorb(r, p)) <==> Skipped(r.pieces, p)
  {
    var w, k := Work(r.pieces, p, r.count), LowerBound(r.pieces, p.index);
    var back := MergeBackward(w, k);
    AbsorbForward(r, p, back);
    if Skipped(r.pieces, p) {
      SkippedStays(w, k);
      assert back.pieces[k - 1] in Absorb(r, p).pieces;
    } else {
      AbsorbFrom(r, p);
      BackwardLowers(w, k);
      if k > 0 && w.pieces[k - 1].End() > p.index {
        PredecessorMerges(w, k);
      }
      NoOverlap(w, Absorb(r, p), k);
    }
  }

  /** If what reaches into the piece was merged, nothing that is left does. */
  lemma NoOverlap(w: Work, w': Work, k: nat)
    requires Sorted(w.pieces) && Disjoint(w.pieces) && From(w, w') && k == LowerBound(w.pieces, w.piece.index)
    requires k > 0 && w.pieces[k - 1].End() > w.piece.index ==> w'.piece.index < w.piece.index
    ensures !Overlaps(w')
  {
    if q :| q in w'.pieces && q.index < w'.piece.index < q.End() {
      var j :| 0 <= j < |w.pieces| && w.pieces[j] == q;
      if w'.piece.index == w.piece.index {
        OverlapIsPredecessor(w.pieces, w.piece, j, k);
      }
    }
  }

  lemma LeftIsDisjoint(w: Work, w': Work)
    requires From(w, w') && Disjoint(w.pieces)
    ensures Disjoint(w'.pieces)
  {
  }

  lemma InsertMembers(pieces: seq<Piece>, p: Piece)
    requires forall q :: q in pieces ==> q.index != p.index
    ensures forall q :: q in Insert(pieces, p) <==> q in pieces || q == p
  {
    var k := LowerBound(pieces, p.index);
    assert k < |pieces| ==> pieces[k] in pieces;
    assert pieces == pieces[..k] + pieces[k..];
  }

  lemma InsertDisjointIff(w: Work)
    requires Disjoint(w.pieces) && Separated(w)
    ensures Disjoint(Insert(w.pieces, w.piece)) <==> !Overlaps(w)
  {
    forall q | q in w.pieces
      ensures q.index != w.piece.index && (q.index > w.piece.index ==> w.piece.End() <= q.index)
    {
      var j :| 0 <= j < |w.pieces| && w.pieces[j] == q;
    }
    InsertMembers(w.pieces, w.piece);
    assert w.piece in Insert(w.pieces, w.piece);
  }

  /** A push whose bytes the reassembler stores beside a predecessor that holds some of them already. */
  predicate CountsTwice(r: Reassembler, data: bytes, index: nat)
    requires Pushable(r, data, index)
  {
    data != [] && index + |data| > r.first && Skipped(r.pieces, Clip(r, data, index))
  }

  lemma AssembleDisjointIff(r: Reassembler, data: bytes, index: nat, eof: bool)
    requires Inv(r) && Disjoint(r.pieces) && Pushable(r, data, index) && data != [] && index + |data| > r.first
    ensures Disjoint(Assemble(r, data, index, eof).pieces) <==> !Skipped(r.pieces, Clip(r, data, index))
  {
    var p := Clip(r, data, index);
    var w := Absorb(r, p);
    AbsorbKeeps(r, p);
    AbsorbFrom(r, p);
    LeftIsDisjoint(Work(r.pieces, p, r.count), w);
    OverlapsIff(r, p);
    PlacedDisjointIff(r.(pieces := w.pieces, count := w.count), w, eof);
  }

  lemma PlacedDisjointIff(r: Reassembler, w: Work, eof: bool)
    requires r.output.Bounded() && r.pieces == w.pieces && WorkValid(w, r.first, r.RightEdge()) && Separated(w)
    requires Disjoint(w.pieces) && (w.piece.data == [] ==> !Overlaps(w))
    ensures Disjoint(WriteOrStore(r, w.piece, eof).pieces) <==> !Overlaps(w)
  {
    InsertDisjointIff(w);
    if Overlaps(w) {
      var q :| q in w.pieces && q.index < w.piece.index < q.End();
      var j :| 0 <= j < |w.pieces| && w.pieces[j] == q;
      assert r.first < w.pieces[j].index;
    }
  }

  /**
   The exact condition under which a push keeps the reported number equal to the
   number of stored indices.
   */
  lemma CountStaysExactIff(r: Reassembler, data: bytes, index: nat, eof: bool)
    requires Inv(r) && Pushable(r, data, index) && r.count == |Stored(r.pieces)|
    ensures var r' := Push(r, data, index, eof);
            r'.count == |Stored(r'.pieces)| <==> !CountsTwice(r, data, index)
  {
    PushKeeps(r, data, index, eof);
    ExactIffDisjoint(r);
    ExactIffDisjoint(Push(r, data, index, eof));
    PushDisjointIff(r, data, index, eof);
  }

  lemma ExactIffDisjoint(r: Reassembler)
    requires Inv(r)
    ensures r.count == |Stored(r.pieces)| <==> Disjoint(r.pieces)
  {
    TotalIsStoredIff(r.pieces, r.first, r.RightEdge());
  }

  lemma PushDisjointIff(r: Reassembler, data: bytes, index: nat, eof: bool)
    requires Inv(r) && Disjoint(r.pieces) && Pushable(r, data, index)
    ensures Disjoint(Push(r, data, index, eof).pieces) <==> !CountsTwice(r, data, index)
  {
    if data != [] && index + |data| > r.first {
      var r0 := r.(eof := r.eof || eof);
      PushPieces(r, r0, data, index, eof);
      EofIrrelevant(r, r0, data, index);
      AssembleDisjointIff(r0, data, index, eof);
    }
  }

  lemma PushPieces(r: Reassembler, r0: Reassembler, data: bytes, index: nat, eof: bool)
    requires Pushable(r, data, index) && data != [] && index + |data| > r.first && r0 == r.(eof := r.eof || eof)
    ensures Push(r, data, index, eof).pieces == Assemble(r0, data, index, eof).pieces
  {
  }

  lemma EofIrrelevant(r: Reassembler, r0: Reassembler, data: bytes, index: nat)
    requires Inv(r) && Pushable(r, data, index) && data != [] && index + |data| > r.first && r0 == r.(eof := r0.eof)
    ensures Inv(r0) && Clip(r0, data, index) == Clip(r, data, index)
  {
  }

  // ---------- an input for which it fails ----------

  /** A first piece is stored behind a gap. */
  lemma StoresFirst(capacity: nat, x: bytes, r: Reassembler)
    requires capacity >= 10 && |x| == 3 && r == NewReassembler(capacity)
    ensures Pushable(r, x, 2) && Push(r, x, 2, false) == r.(pieces := [Piece(2, x)], count := 3)
  {
    assert Clip(r, x, 2) == Piece(2, x);
    assert Absorb(r, Piece(2, x)) == Work([], Piece(2, x), 0);
  }

  lemma StoresSecond(r: Reassembler, a: Piece, b: Piece, at: nat)
    requires Inv(r) && r.pieces == [a] && r.count == |a.data| && r.first < a.index && a.End() < at
    requires b == Piece(at, b.data) && b.data != [] && b.End() <= r.RightEdge() && !r.eof
    ensures Push(r, b.data, at, false) == r.(pieces := [a, b], count := r.count + |b.data|)
  {
    assert Clip(r, b.data, at) == b;
    assert LowerBound(r.pieces, at) == 1;
    assert Absorb(r, b) == Work([a], b, r.count);
  }

  /**
   Three bytes stored at index 2 and one at index 8; the last two of the three
   pushed again are counted again.
   */
  lemma ResubmittedBytesCountTwice(capacity: nat, a: u8, b: u8, c: u8, d: u8)
    returns (r1: Reassembler, r2: Reassembler, r3: Reassembler)
    requires capacity >= 10
    ensures r1 == Push(NewReassembler(capacity), [a, b, c], 2, false)
    ensures Pushable(r1, [d], 8) && r2 == Push(r1, [d], 8, false) && r2.count == 4 == |Stored(r2.pieces)|
    ensures Pushable(r2, [b, c], 3) && r3 == Push(r2, [b, c], 3, false)
    ensures r3.count == 6 && |Stored(r3.pieces)| == 4
  {
    var r0 := NewReassembler(capacity);
    var x, y := [a, b, c], [b, c];
    StoresFirst(capacity, x, r0);
    r1 := Push(r0, x, 2, false);
    PushKeeps(r0, x, 2, false);
    StoresSecond(r1, Piece(2, x), Piece(8, [d]), 8);
    r2 := Push(r1, [d], 8, false);
    PushKeeps(r1, [d], 8, false);
    r3 := Push(r2, y, 3, false);
    StoresAgain(r2, Piece(2, x), Piece(8, [d]), y, r3);
  }

  lemma StoresAgain(r: Reassembler, p: Piece, q: Piece, data: bytes, r': Reassembler)
    requires Inv(r) && r.pieces == [p, q] && p.index == 2 && |p.data| == 3 && q.index == 8 && |q.data| == 1
    requires !r.eof && |data| == 2 && r' == Push(r, data, 3, false) && r.RightEdge() >= 10
    ensures r.count == 4 == |Stored(r.pieces)| && r'.count == 6 && |Stored(r'.pieces)| == 4
  {
    var again := Piece(3, data);
    assert Clip(r, data, 3) == again;
    assert LowerBound(r.pieces, 3) == 1;
    assert Absorb(r, again) == Work(r.pieces, again, r.count);
    PushKeeps(r, data, 3, false);
    StoredSame(r, r', data);
    StoredFour(r.pieces, p, q);
  }

  lemma StoredSame(r: Reassembler, r': Reassembler, data: bytes)
    requires Inv(r) && Pushed(r, r', data, 3) && |data| == 2 && Covered(r.pieces, 3) && Covered(r.pieces, 4)
    requires r'.first == r.first
    ensures Stored(r'.pieces) == Stored(r.pieces)
  {
    forall i ensures i in Stored(r'.pieces) <==> i in Stored(r.pieces) {
      StoredIff(r'.pieces, i);
      StoredIff(r.pieces, i);
      assert Accepted(r', i) <==> Accepted(r, i);
    }
  }

  lemma StoredFour(pieces: seq<Piece>, p: Piece, q: Piece)
    requires pieces == [p, q] && p.index == 2 && |p.data| == 3 && q.index == 8 && |q.data| == 1
    ensures |Stored(pieces)| == 4 == Total(pieces)
  {
    assert pieces[1..] == [q] && [q][1..] == [];
    assert Total([q]) == |q.data| + Total([]) && Total(pieces) == |p.data| + Total([q]);
    assert Disjoint(pieces);
    TotalIsStoredIff(pieces, 0, 9);
  }
}
