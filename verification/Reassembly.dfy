/**
 The stream reassembler: substrings of one logical stream arrive in any order,
 overlapping and duplicated, and are written to the output in order.
 */
module Reassembly {
  import opened Numbers
  import opened Buffers
  import opened ByteStreams

  /** A stored substring. Pieces are ordered by their index alone. */
  datatype Piece = Piece(index: nat, data: bytes) {
    function End(): nat {
      index + |data|
    }

    predicate Has(i: int) {
      index <= i < End()
    }

    ghost predicate CutFrom(stream: bytes) {
      forall i :: Has(i) ==> i < |stream| && data[i - index] == stream[i]
    }
  }

  datatype Reassembler = Reassembler(
    output: Stream, pieces: seq<Piece>, first: nat, count: int, capacity: nat, eof: bool)
  {
    /** The first index that is too far ahead to be stored. */
    function RightEdge(): int {
      first + capacity - |output.buffer|
    }

    predicate Empty() {
      count == 0
    }
  }

  function NewReassembler(capacity: nat): Reassembler {
    Reassembler(NewStream(capacity), [], 0, 0, capacity, false)
  }

  // ---------- operations ----------

  /** Joins two pieces that overlap or touch; `None` when there is a gap between them. */
  function Merge(a: Piece, b: Piece): (r: Option<Piece>)
    ensures r.Some? <==> b.index <= a.End() && a.index <= b.End()
    ensures r.Some? ==> r.value.index == Min(a.index, b.index) && r.value.End() == Max(a.End(), b.End())
  {
    if b.index > a.End() || a.index > b.End() then None
    else if a.index <= b.index then
      if b.End() > a.End() then Some(Piece(a.index, a.data + b.data[a.End() - b.index..])) else Some(a)
    else
      if a.End() > b.End() then Some(Piece(b.index, b.data + a.data[b.End() - a.index..])) else Some(b)
  }

  /** The position of the first piece at or after `index`. */
  function LowerBound(pieces: seq<Piece>, index: nat): (k: nat)
    ensures k <= |pieces|
    ensures forall j :: 0 <= j < k ==> pieces[j].index < index
    ensures k < |pieces| ==> pieces[k].index >= index
  {
    if pieces == [] || pieces[0].index >= index then 0 else 1 + LowerBound(pieces[1..], index)
  }

  function Remove(pieces: seq<Piece>, k: nat): (r: seq<Piece>)
    requires k < |pieces|
    ensures |r| == |pieces| - 1
  {
    pieces[..k] + pieces[k + 1..]
  }

  /** Set insertion: a piece with the same index blocks the new one. */
  function Insert(pieces: seq<Piece>, p: Piece): seq<Piece> {
    var k := LowerBound(pieces, p.index);
    if k < |pieces| && pieces[k].index == p.index then pieces
    else pieces[..k] + [p] + pieces[k..]
  }

  /** The stored pieces, the piece under construction and the stored byte count. */
  datatype Work = Work(pieces: seq<Piece>, piece: Piece, count: int)

  /** Merges the piece at position `k` into the one under construction and erases it. */
  function MergeAt(w: Work, k: nat): (w': Work)
    requires k < |w.pieces| && Merge(w.piece, w.pieces[k]).Some?
  {
    Work(Remove(w.pieces, k), Merge(w.piece, w.pieces[k]).value, w.count - |w.pieces[k].data|)
  }

  /** From position `at` down: the successor first, stopping at the first gap or at the front. */
  function MergeBackward(w: Work, at: nat): (r: Work)
    requires at <= |w.pieces|
    decreases |w.pieces|
  {
    if at == 0 then w
    else
      var k := if at == |w.pieces| then at - 1 else at;
      var m := Merge(w.piece, w.pieces[k]);
      if m.None? then w
      else
        if k == 0 then MergeAt(w, k) else MergeBackward(MergeAt(w, k), k - 1)
  }

  lemma BackwardStep(w: Work, at: nat, k: nat)
    requires 0 < at <= |w.pieces| && k == (if at == |w.pieces| then at - 1 else at)
    ensures MergeBackward(w, at) ==
            if Merge(w.piece, w.pieces[k]).None? then w
            else if k == 0 then MergeAt(w, k)
            else MergeBackward(MergeAt(w, k), k - 1)
  {
  }

  /** From position `at` up, stopping at the first gap. */
  function MergeForward(w: Work, at: nat): (r: Work)
    requires at <= |w.pieces|
    decreases |w.pieces|
  {
    if at == |w.pieces| then w
    else
      var m := Merge(w.piece, w.pieces[at]);
      if m.None? then w
      else MergeForward(MergeAt(w, at), at)
  }

  /** The part of a substring between the first unassembled byte and the right edge. */
  function Clip(r: Reassembler, data: bytes, index: nat): (p: Piece)
    requires index <= r.RightEdge() && index + |data| > r.first && r.output.Bounded()
    requires r.capacity == r.output.capacity
    ensures p.index == Max(index, r.first)
    ensures p.End() == Min(index + |data|, r.RightEdge())
    ensures p.data == data[p.index - index..p.End() - index]
  {
    var from := if index < r.first then r.first - index else 0;
    var to := if index + |data| >= r.RightEdge() then r.RightEdge() - index else |data|;
    Piece(index + from, data[from..to])
  }

  /** What a push demands: a non-empty substring starts at or below the right edge. */
  predicate Pushable(r: Reassembler, data: bytes, index: nat) {
    && r.output.Bounded() && r.capacity == r.output.capacity
    && (data != [] ==> index <= r.RightEdge())
  }

  function EndIfEmpty(r: Reassembler): Reassembler {
    if r.Empty() && r.eof then r.(output := r.output.EndInput()) else r
  }

  function Absorb(r: Reassembler, piece: Piece): (w: Work) {
    var back := MergeBackward(Work(r.pieces, piece, r.count), LowerBound(r.pieces, piece.index));
    MergeForward(back, LowerBound(back.pieces, back.piece.index))
  }

  /** Writes the merged piece when it continues the output, and otherwise stores it. */
  function WriteOrStore(r: Reassembler, piece: Piece, eof: bool): (r': Reassembler)
    requires r.output.Bounded()
    ensures r'.output.Bounded()
  {
    var r1 :=
      if piece.index == r.first then
        var n := Min(|piece.data|, r.output.RemainingCapacity());
        var out := r.output.Write(piece.data);
        if n == |piece.data| && eof then r.(output := out.EndInput(), first := r.first + n, eof := true)
        else r.(output := out, first := r.first + n)
      else r;
    if piece.data != [] && piece.index > r1.first then
      r1.(pieces := Insert(r1.pieces, piece), count := r1.count + |piece.data|)
    else
      r1
  }

  /** A push of bytes that are not all old. */
  function Assemble(r: Reassembler, data: bytes, index: nat, eof: bool): (r': Reassembler)
    requires Pushable(r, data, index) && data != [] && index + |data| > r.first
    ensures r'.output.Bounded()
  {
    var w := Absorb(r, Clip(r, data, index));
    WriteOrStore(r.(pieces := w.pieces, count := w.count), w.piece, eof)
  }

  function Push(r: Reassembler, data: bytes, index: nat, eof: bool): (r': Reassembler)
    requires Pushable(r, data, index)
    ensures r'.output.Bounded()
  {
    var r0 := r.(eof := r.eof || eof);
    if data == [] || index + |data| <= r.first then EndIfEmpty(r0)
    else EndIfEmpty(Assemble(r0, data, index, eof))
  }

  function Read(r: Reassembler, n: nat): Reassembler {
    r.(output := r.output.Pop(n))
  }

  // ---------- the imperative reassembler ----------

  class StreamReassembler {
    const output: ByteStream
    const capacity: nat
    var pieces: seq<Piece>
    var first: nat
    var count: int
    var eof: bool

    ghost predicate Valid()
      reads this, output, output.buffer
    {
      output.Valid() && output.capacity == capacity
    }

    ghost function View(): Reassembler
      reads this, output, output.buffer
    {
      Reassembler(output.View(), pieces, first, count, capacity, eof)
    }

    constructor (capacity: nat)
      ensures Valid() && fresh(output) && fresh(output.buffer)
      ensures View() == NewReassembler(capacity)
    {
      this.capacity := capacity;
      output := new ByteStream(capacity);
      pieces, first, count, eof := [], 0, 0, false;
    }

    /** The loop towards the front: it erases what it merges. */
    method MergeFront(start: Piece) returns (piece: Piece)
      modifies this`pieces, this`count
      ensures Work(pieces, piece, count)
           == MergeBackward(Work(old(pieces), start, old(count)), LowerBound(old(pieces), start.index))
    {
      piece := start;
      var iter := LowerBound(pieces, piece.index);
      ghost var goal := MergeBackward(Work(pieces, piece, count), iter);
      while iter != 0
        invariant 0 <= iter <= |pieces|
        invariant goal == MergeBackward(Work(pieces, piece, count), iter)
        decreases |pieces|
      {
        ghost var at := iter;
        if iter == |pieces| {
          iter := iter - 1;
        }
        BackwardStep(Work(pieces, piece, count), at, iter);
        var merged := false;
        piece, merged := MergeOne(piece, iter);
        if !merged || iter == 0 {
          break;
        }
        iter := iter - 1;
      }
    }

    /** Merges one stored piece and erases it, unless there is a gap. */
    method MergeOne(start: Piece, k: nat) returns (piece: Piece, merged: bool)
      requires k < |pieces|
      modifies this`pieces, this`count
      ensures merged == Merge(start, old(pieces)[k]).Some?
      ensures Work(pieces, piece, count) ==
              if merged then MergeAt(Work(old(pieces), start, old(count)), k) else Work(old(pieces), start, old(count))
    {
      var m := Merge(start, pieces[k]);
      if m.None? {
        return start, false;
      }
      count := count - |pieces[k].data|;
      pieces := Remove(pieces, k);
      return m.value, true;
    }

    /** The loop towards the back: it erases what it merges. */
    method MergeBack(start: Piece) returns (piece: Piece)
      modifies this`pieces, this`count
      ensures Work(pieces, piece, count)
           == MergeForward(Work(old(pieces), start, old(count)), LowerBound(old(pieces), start.index))
    {
      piece := start;
      var iter := LowerBound(pieces, piece.index);
      ghost var goal := MergeForward(Work(pieces, piece, count), iter);
      while iter != |pieces|
        invariant 0 <= iter <= |pieces|
        invariant goal == MergeForward(Work(pieces, piece, count), iter)
        decreases |pieces|
      {
        var merged := false;
        piece, merged := MergeOne(piece, iter);
        if !merged {
          break;
        }
      }
    }

    method PushSubstring(data: bytes, index: nat, fin: bool)
      requires Valid() && Pushable(View(), data, index)
      modifies this, output, output.buffer
      ensures Valid() && View() == Push(old(View()), data, index, fin)
    {
      eof := eof || fin;
      if data == [] || index + |data| <= first {
        if count == 0 && eof {
          output.EndInput();
        }
        return;
      }
      AssembleSubstring(data, index, fin);
      if count == 0 && eof {
        output.EndInput();
      }
    }

    method AssembleSubstring(data: bytes, index: nat, fin: bool)
      requires Valid() && Pushable(View(), data, index) && data != [] && index + |data| > first
      modifies this, output, output.buffer
      ensures Valid() && View() == Assemble(old(View()), data, index, fin)
    {
      ghost var r := View();
      var edge := first + capacity - output.size;
      var from, to := 0, |data|;
      if index < first {
        from := first - index;
      }
      if index + |data| >= edge {
        to := edge - index;
      }
      var start := Piece(index + from, data[from..to]);
      assert start == Clip(r, data, index);
      var piece := MergeFront(start);
      piece := MergeBack(piece);
      ghost var w := Absorb(r, start);
      assert View() == r.(pieces := w.pieces, count := w.count);
      Place(piece, fin);
    }

    method Place(piece: Piece, fin: bool)
      requires Valid()
      modifies this, output, output.buffer
      ensures Valid() && View() == WriteOrStore(old(View()), piece, fin)
    {
      if piece.index == first {
        var n := output.Write(piece.data);
        if n == |piece.data| && fin {
          eof := true;
          output.EndInput();
        }
        first := first + n;
      }
      if piece.data != [] && piece.index > first {
        pieces := Insert(pieces, piece);
        count := count + |piece.data|;
      }
    }
  }
}
