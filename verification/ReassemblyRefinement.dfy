/**
 The reassembler refines a map from stream indices to bytes whose output is its
 longest contiguous prefix.
 */
module ReassemblyRefinement {
  import opened Numbers
  import opened Reassembly

  // ---------- stored pieces ----------

  ghost predicate Sorted(pieces: seq<Piece>) {
    forall i, j :: 0 <= i < j < |pieces| ==> pieces[i].index < pieces[j].index
  }

  /** Every piece is non-empty, starts strictly above `lo` and ends at or below `hi`. */
  ghost predicate Between(pieces: seq<Piece>, lo: int, hi: int) {
    forall k :: 0 <= k < |pieces| ==> pieces[k].data != [] && lo < pieces[k].index && pieces[k].End() <= hi
  }

  ghost predicate Covered(pieces: seq<Piece>, i: int) {
    exists k :: 0 <= k < |pieces| && pieces[k].Has(i)
  }

  ghost predicate AllCut(pieces: seq<Piece>, stream: bytes) {
    forall k :: 0 <= k < |pieces| ==> pieces[k].CutFrom(stream)
  }

  function Total(pieces: seq<Piece>): nat {
    if pieces == [] then 0 else |pieces[0].data| + Total(pieces[1..])
  }

  lemma {:induction false} TotalRemove(pieces: seq<Piece>, k: nat)
    requires k < |pieces|
    ensures Total(Remove(pieces, k)) == Total(pieces) - |pieces[k].data|
    decreases k
  {
    if k == 0 {
      assert Remove(pieces, 0) == pieces[1..];
    } else {
      assert Remove(pieces, k)[1..] == Remove(pieces[1..], k - 1);
      TotalRemove(pieces[1..], k - 1);
    }
  }

  lemma {:induction false} TotalInsert(pieces: seq<Piece>, k: nat, p: Piece)
    requires k <= |pieces|
    ensures Total(pieces[..k] + [p] + pieces[k..]) == Total(pieces) + |p.data|
  {
    RemoveInserted(pieces, k, p);
    TotalRemove(pieces[..k] + [p] + pieces[k..], k);
  }

  lemma RemoveInserted(pieces: seq<Piece>, k: nat, p: Piece)
    requires k <= |pieces|
    ensures var longer := pieces[..k] + [p] + pieces[k..];
            longer[k] == p && Remove(longer, k) == pieces
  {
  }

  /** The stored byte count is zero exactly when nothing is stored. */
  lemma TotalZero(pieces: seq<Piece>, lo: int, hi: int)
    requires Between(pieces, lo, hi)
    ensures Total(pieces) == 0 <==> pieces == []
  {
  }

  // ---------- merging ----------

  /** Merging two pieces of one stream gives the piece of that stream that covers both. */
  lemma MergeCut(a: Piece, b: Piece, stream: bytes)
    requires Merge(a, b).Some? && a.CutFrom(stream) && b.CutFrom(stream)
    ensures Merge(a, b).value.CutFrom(stream)
  {
    var m := Merge(a, b).value;
    forall i | m.Has(i) ensures i < |stream| && m.data[i - m.index] == stream[i] {
      assert a.Has(i) || b.Has(i);
    }
  }

  ghost predicate WorkHas(w: Work, i: int) {
    w.piece.Has(i) || Covered(w.pieces, i)
  }

  ghost predicate WorkCut(w: Work, stream: bytes) {
    w.piece.CutFrom(stream) && AllCut(w.pieces, stream)
  }

  ghost predicate WorkValid(w: Work, lo: int, hi: int) {
    && Sorted(w.pieces) && Between(w.pieces, lo, hi)
    && w.count == Total(w.pieces)
    && lo <= w.piece.index && w.piece.End() <= hi
  }

  /** What both loops keep: validity, the covered indices, the bytes, and whether the output continues. */
  ghost predicate Keeps(w: Work, w': Work, lo: int, hi: int) {
    && WorkValid(w', lo, hi)
    && (forall i :: WorkHas(w', i) <==> WorkHas(w, i))
    && (forall stream :: WorkCut(w, stream) ==> WorkCut(w', stream))
    && (w'.piece.index == lo <==> w.piece.index == lo)
    && |w'.piece.data| >= |w.piece.data|
  }

  lemma RemoveCovered(pieces: seq<Piece>, k: nat, i: int)
    requires k < |pieces|
    ensures Covered(pieces, i) <==> Covered(Remove(pieces, k), i) || pieces[k].Has(i)
  {
    var r := Remove(pieces, k);
    if Covered(pieces, i) && !pieces[k].Has(i) {
      var j :| 0 <= j < |pieces| && pieces[j].Has(i);
      assert r[if j < k then j else j - 1] == pieces[j];
    }
    if Covered(r, i) {
      var j :| 0 <= j < |r| && r[j].Has(i);
      assert r[j] == pieces[if j < k then j else j + 1];
    }
  }

  lemma MergeAtKeeps(w: Work, k: nat, lo: int, hi: int)
    requires k < |w.pieces| && Merge(w.piece, w.pieces[k]).Some?
    requires WorkValid(w, lo, hi)
    ensures Keeps(w, MergeAt(w, k), lo, hi)
  {
    var w' := MergeAt(w, k);
    TotalRemove(w.pieces, k);
    forall i ensures WorkHas(w', i) <==> WorkHas(w, i) {
      RemoveCovered(w.pieces, k, i);
    }
    forall stream | WorkCut(w, stream) ensures WorkCut(w', stream) {
      MergeCut(w.piece, w.pieces[k], stream);
    }
  }

  lemma KeepsTrans(w: Work, w1: Work, w2: Work, lo: int, hi: int)
    requires Keeps(w, w1, lo, hi) && Keeps(w1, w2, lo, hi)
    ensures Keeps(w, w2, lo, hi)
  {
  }

  lemma KeepsSelf(w: Work, lo: int, hi: int)
    requires WorkValid(w, lo, hi)
    ensures Keeps(w, w, lo, hi)
  {
  }

  /** Steps of `MergeAt`, at any positions and any number of times. */
  ghost predicate Reaches(w: Work, w': Work, ks: seq<nat>)
    decreases |ks|
  {
    if ks == [] then w' == w
    else
      && ks[0] < |w.pieces| && Merge(w.piece, w.pieces[ks[0]]).Some?
      && Reaches(MergeAt(w, ks[0]), w', ks[1..])
  }

  lemma {:induction false} ReachesKeeps(w: Work, w': Work, ks: seq<nat>, lo: int, hi: int)
    requires Reaches(w, w', ks) && WorkValid(w, lo, hi)
    ensures Keeps(w, w', lo, hi)
    decreases |ks|
  {
    if ks == [] {
      KeepsSelf(w, lo, hi);
    } else {
      MergeAtKeeps(w, ks[0], lo, hi);
      ReachesKeeps(MergeAt(w, ks[0]), w', ks[1..], lo, hi);
      KeepsTrans(w, MergeAt(w, ks[0]), w', lo, hi);
    }
  }

  lemma {:induction false} BackwardSteps(w: Work, at: nat) returns (ks: seq<nat>)
    requires at <= |w.pieces|
    ensures Reaches(w, MergeBackward(w, at), ks)
    decreases |w.pieces|
  {
    ks := [];
    if at > 0 {
      var k := if at == |w.pieces| then at - 1 else at;
      if Merge(w.piece, w.pieces[k]).Some? {
        var next := MergeAt(w, k);
        if k > 0 {
          ks := BackwardSteps(next, k - 1);
        }
        ks := ReachesFirst(w, k, MergeBackward(w, at), ks);
      }
    }
  }

  lemma ReachesFirst(w: Work, k: nat, w': Work, ks: seq<nat>) returns (more: seq<nat>)
    requires k < |w.pieces| && Merge(w.piece, w.pieces[k]).Some? && Reaches(MergeAt(w, k), w', ks)
    ensures Reaches(w, w', more)
  {
    more := [k] + ks;
    assert more[1..] == ks;
  }

  lemma {:induction false} ForwardSteps(w: Work, at: nat) returns (ks: seq<nat>)
    requires at <= |w.pieces|
    ensures Reaches(w, MergeForward(w, at), ks)
    decreases |w.pieces|
  {
    ks := [];
    if at < |w.pieces| && Merge(w.piece, w.pieces[at]).Some? {
      ks := ForwardSteps(MergeAt(w, at), at);
      ks := ReachesFirst(w, at, MergeForward(w, at), ks);
    }
  }

  /** No stored piece touches the piece under construction at or after its start. */
  ghost predicate Separated(w: Work) {
    forall j :: 0 <= j < |w.pieces| ==> w.pieces[j].index < w.piece.index || w.pieces[j].index > w.piece.End()
  }

  ghost predicate SplitAt(w: Work, at: nat) {
    && at <= |w.pieces|
    && (forall j :: 0 <= j < at ==> w.pieces[j].index < w.piece.index)
    && (forall j :: at <= j < |w.pieces| ==> w.pieces[j].index >= w.piece.index)
  }

  lemma {:induction false} ForwardSeparates(w: Work, at: nat)
    requires Sorted(w.pieces) && SplitAt(w, at)
    ensures Separated(MergeForward(w, at))
    decreases |w.pieces|
  {
    if at < |w.pieces| && Merge(w.piece, w.pieces[at]).Some? {
      var w' := MergeAt(w, at);
      assert Sorted(w'.pieces) && SplitAt(w', at);
      ForwardSeparates(w', at);
    }
  }

  lemma LowerBoundSplits(pieces: seq<Piece>, index: nat)
    requires Sorted(pieces)
    ensures var k := LowerBound(pieces, index);
            forall j :: k <= j < |pieces| ==> pieces[j].index >= index
  {
  }

  // ---------- one push ----------

  /** The invariant of the reassembler. */
  ghost predicate Inv(r: Reassembler) {
    && r.output.Bounded() && r.capacity == r.output.capacity
    && r.first == r.output.BytesWritten()
    && Sorted(r.pieces) && Between(r.pieces, r.first, r.RightEdge())
    && r.count == Total(r.pieces)
  }

  /** Index `i` has been accepted: it is written or stored. */
  ghost predicate Accepted(r: Reassembler, i: int) {
    0 <= i < r.first || Covered(r.pieces, i)
  }

  /** Everything written and stored is cut from `stream`. */
  ghost predicate Agrees(r: Reassembler, stream: bytes) {
    r.output.History() <= stream && AllCut(r.pieces, stream)
  }

  lemma AbsorbKeeps(r: Reassembler, piece: Piece)
    requires Inv(r) && r.first <= piece.index && piece.End() <= r.RightEdge()
    ensures Keeps(Work(r.pieces, piece, r.count), Absorb(r, piece), r.first, r.RightEdge())
    ensures Separated(Absorb(r, piece))
  {
    var w := Work(r.pieces, piece, r.count);
    var lo, hi := r.first, r.RightEdge();
    var back := MergeBackward(w, LowerBound(r.pieces, piece.index));
    var ks := BackwardSteps(w, LowerBound(r.pieces, piece.index));
    ReachesKeeps(w, back, ks, lo, hi);
    LowerBoundSplits(back.pieces, back.piece.index);
    ks := ForwardSteps(back, LowerBound(back.pieces, back.piece.index));
    ReachesKeeps(back, Absorb(r, piece), ks, lo, hi);
    ForwardSeparates(back, LowerBound(back.pieces, back.piece.index));
    KeepsTrans(w, back, Absorb(r, piece), lo, hi);
  }

  /** The bytes of `data` below the right edge are those of `stream`. */
  ghost predicate Matches(stream: bytes, data: bytes, index: nat, edge: int) {
    forall i :: Offered(i, data, index, edge) ==> i < |stream| && stream[i] == data[i - index]
  }

  /** A push offers byte `i`, below the right edge. */
  predicate Offered(i: int, data: bytes, index: nat, edge: int) {
    index <= i < index + |data| && i < edge
  }

  /** What one push keeps and adds. */
  ghost predicate Pushed(r: Reassembler, r': Reassembler, data: bytes, index: nat) {
    && Inv(r') && r'.RightEdge() == r.RightEdge() && r'.capacity == r.capacity
    && r'.output.popped == r.output.popped && r'.output.error == r.output.error
    && (forall i :: Accepted(r', i) <==> Accepted(r, i) || (index <= i < index + |data| && i < r.RightEdge()))
    && (forall stream :: Agrees(r, stream) && Matches(stream, data, index, r.RightEdge()) ==> Agrees(r', stream))
  }

  /** The merged piece continues the output: the write never truncates, and nothing stored is left behind it. */
  lemma WriteKeeps(r: Reassembler, piece: Piece, eof: bool)
    requires WorkValid(Work(r.pieces, piece, r.count), r.first, r.RightEdge())
    requires Separated(Work(r.pieces, piece, r.count))
    requires r.output.Bounded() && r.capacity == r.output.capacity && r.first == r.output.BytesWritten()
    requires piece.index == r.first
    ensures |piece.data| <= r.output.RemainingCapacity()
    ensures var r' := WriteOrStore(r, piece, eof);
            && Inv(r') && r'.first == piece.End() && r'.pieces == r.pieces && r'.eof == (r.eof || eof)
            && r'.output == r.output.(buffer := r.output.buffer + piece.data, ended := r.output.ended || eof)
            && r'.capacity == r.capacity
  {
  }

  lemma InsertSorted(pieces: seq<Piece>, piece: Piece)
    requires Sorted(pieces)
    requires forall j :: 0 <= j < |pieces| ==> pieces[j].index != piece.index
    ensures Sorted(Insert(pieces, piece))
  {
    var k := LowerBound(pieces, piece.index);
    LowerBoundSplits(pieces, piece.index);
    var longer := Insert(pieces, piece);
    forall i, j | 0 <= i < j < |longer| ensures longer[i].index < longer[j].index {
      if j < k {
        assert longer[i] == pieces[i] && longer[j] == pieces[j];
      } else if j == k {
        assert longer[i] == pieces[i] && longer[j] == piece;
      } else if i < k {
        assert longer[i] == pieces[i] && longer[j] == pieces[j - 1];
      } else if i == k {
        assert longer[i] == piece && longer[j] == pieces[j - 1];
      } else {
        assert longer[i] == pieces[i - 1] && longer[j] == pieces[j - 1];
      }
    }
  }

  lemma InsertKeeps(pieces: seq<Piece>, piece: Piece, lo: int, hi: int)
    requires Sorted(pieces) && Between(pieces, lo, hi)
    requires piece.data != [] && lo < piece.index && piece.End() <= hi
    requires forall j :: 0 <= j < |pieces| ==> pieces[j].index != piece.index
    ensures Sorted(Insert(pieces, piece)) && Between(Insert(pieces, piece), lo, hi)
    ensures Total(Insert(pieces, piece)) == Total(pieces) + |piece.data|
    ensures Insert(pieces, piece) != []
  {
    InsertSorted(pieces, piece);
    TotalInsert(pieces, LowerBound(pieces, piece.index), piece);
    InsertBetween(pieces, LowerBound(pieces, piece.index), piece, lo, hi);
  }

  lemma InsertBetween(pieces: seq<Piece>, k: nat, p: Piece, lo: int, hi: int)
    requires k <= |pieces| && Between(pieces, lo, hi) && p.data != [] && lo < p.index && p.End() <= hi
    ensures Between(pieces[..k] + [p] + pieces[k..], lo, hi)
  {
  }

  lemma InsertCovers(pieces: seq<Piece>, piece: Piece)
    requires forall j :: 0 <= j < |pieces| ==> pieces[j].index != piece.index
    ensures forall i :: Covered(Insert(pieces, piece), i) <==> Covered(pieces, i) || piece.Has(i)
    ensures forall stream :: AllCut(pieces, stream) && piece.CutFrom(stream) ==> AllCut(Insert(pieces, piece), stream)
  {
    var k := LowerBound(pieces, piece.index);
    var longer := Insert(pieces, piece);
    RemoveInserted(pieces, k, piece);
    forall i ensures Covered(longer, i) <==> Covered(pieces, i) || piece.Has(i) {
      RemoveCovered(longer, k, i);
    }
  }

  /** The merged piece lies ahead of the output and is stored, unless it is empty. */
  lemma StoreKeeps(r: Reassembler, piece: Piece, eof: bool)
    requires WorkValid(Work(r.pieces, piece, r.count), r.first, r.RightEdge())
    requires Separated(Work(r.pieces, piece, r.count))
    requires r.output.Bounded() && r.capacity == r.output.capacity && r.first == r.output.BytesWritten()
    requires piece.index > r.first
    ensures var r' := WriteOrStore(r, piece, eof);
            && Inv(r') && r'.output == r.output && r'.first == r.first && r'.eof == r.eof && r'.capacity == r.capacity
            && (forall i :: Covered(r'.pieces, i) <==> Covered(r.pieces, i) || piece.Has(i))
            && (forall stream :: AllCut(r.pieces, stream) && piece.CutFrom(stream) ==> AllCut(r'.pieces, stream))
            && (r'.pieces == [] <==> r.pieces == [] && piece.data == [])
  {
    if piece.data != [] {
      InsertKeeps(r.pieces, piece, r.first, r.RightEdge());
      InsertCovers(r.pieces, piece);
    }
  }

  /** The indices accepted after the merged piece is written or stored. */
  ghost predicate Gains(r: Reassembler, r': Reassembler, w: Work) {
    && Inv(r') && r'.RightEdge() == r.RightEdge() && r'.capacity == r.capacity
    && r'.output.popped == r.output.popped && r'.output.error == r.output.error
    && (forall i :: Accepted(r', i) <==> 0 <= i < r.first || WorkHas(w, i))
    && (forall stream :: r.output.History() <= stream && WorkCut(w, stream) ==> Agrees(r', stream))
  }

  lemma PlaceGains(r: Reassembler, piece: Piece, eof: bool)
    requires WorkValid(Work(r.pieces, piece, r.count), r.first, r.RightEdge())
    requires Separated(Work(r.pieces, piece, r.count))
    requires r.output.Bounded() && r.capacity == r.output.capacity && r.first == r.output.BytesWritten()
    ensures Gains(r, WriteOrStore(r, piece, eof), Work(r.pieces, piece, r.count))
    ensures WriteOrStore(r, piece, eof).eof == (r.eof || (eof && piece.index == r.first))
    ensures WriteOrStore(r, piece, eof).output.ended == (r.output.ended || (eof && piece.index == r.first))
  {
    var w, r' := Work(r.pieces, piece, r.count), WriteOrStore(r, piece, eof);
    if piece.index == r.first {
      WriteKeeps(r, piece, eof);
      forall stream | r.output.History() <= stream && WorkCut(w, stream) ensures Agrees(r', stream) {
        WrittenAgrees(r.output.History(), piece, stream);
        assert r'.output.History() == r.output.History() + piece.data;
      }
    } else {
      StoreKeeps(r, piece, eof);
    }
  }

  lemma WrittenAgrees(history: bytes, piece: Piece, stream: bytes)
    requires history <= stream && piece.index == |history| && piece.CutFrom(stream)
    ensures history + piece.data <= stream
  {
    forall i | |history| <= i < |history + piece.data|
      ensures i < |stream| && (history + piece.data)[i] == stream[i]
    {
      assert piece.Has(i);
    }
    if piece.data != [] {
      assert piece.Has(|history + piece.data| - 1);
    }
  }

  lemma ClipMatches(r: Reassembler, data: bytes, index: nat, stream: bytes)
    requires Pushable(r, data, index) && data != [] && index + |data| > r.first
    requires Matches(stream, data, index, r.RightEdge())
    ensures Clip(r, data, index).CutFrom(stream)
  {
    var p := Clip(r, data, index);
    forall i | p.Has(i) ensures i < |stream| && p.data[i - p.index] == stream[i] {
      assert Offered(i, data, index, r.RightEdge());
      assert p.data[i - p.index] == data[i - index];
    }
  }

  lemma AssembleKeeps(r: Reassembler, data: bytes, index: nat, eof: bool)
    requires Inv(r) && Pushable(r, data, index) && data != [] && index + |data| > r.first
    ensures Pushed(r, Assemble(r, data, index, eof), data, index)
    ensures Assemble(r, data, index, eof).eof == (r.eof || (eof && index <= r.first))
    ensures Assemble(r, data, index, eof).output.ended == (r.output.ended || (eof && index <= r.first))
  {
    var edge := r.RightEdge();
    var clip := Clip(r, data, index);
    var start := Work(r.pieces, clip, r.count);
    var w := Absorb(r, clip);
    AbsorbKeeps(r, clip);
    var r1 := r.(pieces := w.pieces, count := w.count);
    var r' := Assemble(r, data, index, eof);
    PlaceGains(r1, w.piece, eof);
    forall i ensures Accepted(r', i) <==> Accepted(r, i) || (index <= i < index + |data| && i < edge) {
      assert WorkHas(w, i) <==> WorkHas(start, i);
      assert clip.Has(i) <==> r.first <= i && index <= i < index + |data| && i < edge;
    }
    forall stream | Agrees(r, stream) && Matches(stream, data, index, edge) ensures Agrees(r', stream) {
      ClipMatches(r, data, index, stream);
      assert WorkCut(start, stream);
    }
  }

  /** The end-of-stream flags play no part in `Pushed`. */
  lemma PushedFlags(r: Reassembler, r0: Reassembler, r1: Reassembler, r': Reassembler, data: bytes, index: nat)
    requires r0 == r.(eof := r0.eof) && Pushed(r0, r1, data, index) && r' == EndIfEmpty(r1)
    ensures Pushed(r, r', data, index)
    ensures r'.eof == r1.eof && r'.output.ended == (r1.output.ended || (r1.eof && r1.pieces == []))
    ensures r'.pieces == r1.pieces
  {
    TotalZero(r1.pieces, r1.first, r1.RightEdge());
    assert r'.output.History() == r1.output.History();
    assert r.output.History() == r0.output.History();
    forall i ensures Accepted(r', i) <==> Accepted(r, i) || (index <= i < index + |data| && i < r.RightEdge()) {
      assert Accepted(r0, i) <==> Accepted(r, i);
      assert Accepted(r', i) <==> Accepted(r1, i);
    }
    forall stream | Agrees(r, stream) && Matches(stream, data, index, r.RightEdge()) ensures Agrees(r', stream) {
      assert Agrees(r0, stream);
    }
  }

  lemma NothingPushed(r: Reassembler, data: bytes, index: nat)
    requires Inv(r) && (data == [] || index + |data| <= r.first)
    ensures Pushed(r, r, data, index)
  {
  }

  /** One push: the accepted indices grow by exactly those pushed below the right edge. */
  lemma PushKeeps(r: Reassembler, data: bytes, index: nat, eof: bool)
    requires Inv(r) && Pushable(r, data, index)
    ensures Pushed(r, Push(r, data, index, eof), data, index)
    ensures PushOutcome(r, Push(r, data, index, eof), data, index, eof)
  {
    var r0 := r.(eof := r.eof || eof);
    if data != [] && index + |data| > r.first {
      AssembleKeeps(r0, data, index, eof);
      PushedFlags(r, r0, Assemble(r0, data, index, eof), Push(r, data, index, eof), data, index);
    } else {
      NothingPushed(r0, data, index);
      PushedFlags(r, r0, r0, Push(r, data, index, eof), data, index);
    }
  }

  /** When a push ends the output. */
  ghost predicate PushOutcome(r: Reassembler, r': Reassembler, data: bytes, index: nat, eof: bool) {
    && r'.eof == (r.eof || eof)
    && (r'.output.ended <==>
        || r.output.ended
        || ((r.eof || eof) && r'.pieces == [])
        || (eof && data != [] && index <= r.first < index + |data|))
  }

  lemma ReadKeeps(r: Reassembler, n: nat)
    requires Inv(r)
    ensures Inv(Read(r, n)) && Read(r, n).RightEdge() >= r.RightEdge()
    ensures forall i :: Accepted(Read(r, n), i) <==> Accepted(r, i)
    ensures forall stream :: Agrees(r, stream) ==> Agrees(Read(r, n), stream)
    ensures Read(r, n).first == r.first && Read(r, n).output.ended == r.output.ended
  {
  }

  // ---------- the byte map ----------

  /** The reference model: the accepted bytes by index, and how many the reader took. */
  datatype ByteMap = ByteMap(accepted: map<nat, u8>, read: nat, capacity: nat) {
    /** Accepts the bytes that are new and less than `capacity` ahead of the reader. */
    function Push(data: bytes, index: nat): ByteMap {
      this.(accepted := accepted + (map i: nat | index <= i < Min(index + |data|, read + capacity) && i !in accepted
                                     :: data[i - index]))
    }

    function Read(n: nat): ByteMap {
      this.(read := Min(read + n, Max(read, Gap(accepted.Keys, 0))))
    }
  }

  /** The least number at or above `from` that is not in the set. */
  function Gap(keys: set<nat>, from: nat): (g: nat)
    ensures from <= g && g !in keys
    ensures forall i :: from <= i < g ==> i in keys
    decreases |keys|
  {
    if from in keys then
      var g := Gap(keys - {from}, from + 1);
      assert forall i :: from + 1 <= i < g ==> i in keys by {
        forall i | from + 1 <= i < g ensures i in keys {
          assert i in keys - {from};
        }
      }
      g
    else
      from
  }

  /** The longest contiguous prefix. */
  function LongestPrefix(m: map<nat, u8>): (out: bytes)
    ensures |out| == Gap(m.Keys, 0)
    ensures forall i :: 0 <= i < |out| ==> out[i] == m[i]
  {
    seq(Gap(m.Keys, 0), i requires 0 <= i < Gap(m.Keys, 0) => m[i])
  }

  ghost predicate Extends(stream: bytes, m: map<nat, u8>) {
    forall i :: i in m ==> i < |stream| && stream[i] == m[i]
  }

  ghost predicate Refines(r: Reassembler, m: ByteMap) {
    && Inv(r) && r.capacity == m.capacity && r.output.BytesRead() == m.read
    && (forall i: nat :: Accepted(r, i) <==> i in m.accepted)
    && (forall stream :: Extends(stream, m.accepted) ==> Agrees(r, stream))
  }

  /** The pushed bytes do not contradict what was accepted before. */
  ghost predicate Compatible(m: ByteMap, data: bytes, index: nat) {
    forall i :: i in m.accepted && index <= i < index + |data| ==> m.accepted[i] == data[i - index]
  }

  lemma GapUnique(keys: set<nat>, g: nat)
    requires g !in keys && forall i :: 0 <= i < g ==> i in keys
    ensures Gap(keys, 0) == g
  {
    var h := Gap(keys, 0);
    assert h >= g;
    assert g !in keys;
  }

  lemma SomeExtension(m: map<nat, u8>, n: nat) returns (stream: bytes)
    requires forall i :: i in m ==> i < n
    ensures Extends(stream, m) && |stream| == n
  {
    stream := seq(n, i requires 0 <= i => if i in m then m[i] else 0);
  }

  /** A stream that extends the pushed map extends the map before. */
  lemma ExtendsBefore(m: ByteMap, data: bytes, index: nat, stream: bytes)
    requires Extends(stream, m.Push(data, index).accepted)
    ensures Extends(stream, m.accepted)
  {
    forall i | i in m.accepted ensures i < |stream| && stream[i] == m.accepted[i] {
      assert i in m.Push(data, index).accepted;
    }
  }

  /** It also matches what was offered. */
  lemma ExtendsOffered(m: ByteMap, data: bytes, index: nat, stream: bytes, edge: int)
    requires Compatible(m, data, index) && Extends(stream, m.Push(data, index).accepted)
    requires edge == m.read + m.capacity
    ensures Matches(stream, data, index, edge)
  {
    forall i | Offered(i, data, index, edge) ensures i < |stream| && stream[i] == data[i - index] {
      OfferedAccepted(m, data, index, i, edge);
    }
  }

  lemma OfferedAccepted(m: ByteMap, data: bytes, index: nat, i: nat, edge: int)
    requires Compatible(m, data, index) && Offered(i, data, index, edge) && edge == m.read + m.capacity
    ensures i in m.Push(data, index).accepted && m.Push(data, index).accepted[i] == data[i - index]
  {
  }

  lemma PushedAccepts(r: Reassembler, r': Reassembler, m: ByteMap, data: bytes, index: nat, i: nat)
    requires Refines(r, m) && Pushed(r, r', data, index)
    ensures Accepted(r', i) <==> i in m.Push(data, index).accepted
  {
    assert Accepted(r, i) <==> i in m.accepted;
    assert Accepted(r', i) <==> Accepted(r, i) || (index <= i < index + |data| && i < r.RightEdge());
  }

  lemma PushedRefines(r: Reassembler, r': Reassembler, m: ByteMap, data: bytes, index: nat)
    requires Refines(r, m) && Compatible(m, data, index) && Pushed(r, r', data, index)
    ensures Refines(r', m.Push(data, index))
  {
    forall stream | Extends(stream, m.Push(data, index).accepted) ensures Agrees(r', stream) {
      ExtendsBefore(m, data, index, stream);
      ExtendsOffered(m, data, index, stream, r.RightEdge());
      assert Agrees(r, stream);
    }
    forall i: nat ensures Accepted(r', i) <==> i in m.Push(data, index).accepted {
      PushedAccepts(r, r', m, data, index, i);
    }
  }

  lemma PushRefines(r: Reassembler, m: ByteMap, data: bytes, index: nat, eof: bool)
    requires Refines(r, m) && Pushable(r, data, index) && Compatible(m, data, index)
    ensures Refines(Push(r, data, index, eof), m.Push(data, index))
  {
    PushKeeps(r, data, index, eof);
    PushedRefines(r, Push(r, data, index, eof), m, data, index);
  }

  /** The output is the longest contiguous prefix of the accepted bytes, and nothing else was written. */
  lemma OutputIsLongestPrefix(r: Reassembler, m: ByteMap)
    requires Refines(r, m)
    ensures r.output.History() == LongestPrefix(m.accepted) && r.first == |LongestPrefix(m.accepted)|
  {
    GapUnique(m.accepted.Keys, r.first);
    var stream := SomeExtension(m.accepted, r.RightEdge());
    assert r.output.History() <= stream;
    forall i | 0 <= i < r.first ensures r.output.History()[i] == LongestPrefix(m.accepted)[i] {
      assert Accepted(r, i);
    }
  }

  lemma ReadRefines(r: Reassembler, m: ByteMap, n: nat)
    requires Refines(r, m)
    ensures Refines(Read(r, n), m.Read(n))
  {
    ReadKeeps(r, n);
    OutputIsLongestPrefix(r, m);
  }
}
