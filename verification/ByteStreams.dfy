/** The in-order, flow-controlled byte stream between a writer and a reader. */
module ByteStreams {
  import opened Numbers
  import opened Buffers

  /** A byte stream as a value: the bytes already popped and the bytes still buffered. */
  datatype Stream = Stream(popped: bytes, buffer: bytes, capacity: nat, ended: bool, error: bool) {
    /** Every byte ever accepted, in order. */
    function History(): bytes {
      popped + buffer
    }

    function BytesWritten(): nat {
      |popped| + |buffer|
    }

    function BytesRead(): nat {
      |popped|
    }

    predicate Bounded() {
      |buffer| <= capacity
    }

    predicate Eof() {
      ended && buffer == []
    }

    function RemainingCapacity(): (r: nat)
      requires Bounded()
    {
      capacity - |buffer|
    }

    function Write(data: bytes): (s: Stream)
      requires Bounded()
      ensures s.Bounded()
    {
      this.(buffer := buffer + data[..Min(|data|, RemainingCapacity())])
    }

    function Peek(n: nat): bytes {
      buffer[..Min(n, |buffer|)]
    }

    function Pop(n: nat): (s: Stream)
      ensures Bounded() ==> s.Bounded()
      ensures s.History() == History()
    {
      var l := Min(n, |buffer|);
      this.(popped := popped + buffer[..l], buffer := buffer[l..])
    }

    function EndInput(): Stream {
      this.(ended := true)
    }

    function SetError(): Stream {
      this.(error := true)
    }
  }

  function NewStream(capacity: nat): Stream {
    Stream([], [], capacity, false, false)
  }

  class ByteStream {
    const buffer: BufferList
    const capacity: nat
    var size: nat
    var numWrite: nat
    var numRead: nat
    var ended: bool
    var error: bool
    ghost var popped: bytes

    ghost predicate Valid()
      reads this, buffer
    {
      && size == |buffer.Contents()| <= capacity
      && numRead == |popped|
      && numWrite == numRead + size
    }

    ghost function View(): (s: Stream)
      reads this, buffer
    {
      Stream(popped, buffer.Contents(), capacity, ended, error)
    }

    constructor (capacity: nat)
      ensures Valid() && fresh(buffer) && View() == NewStream(capacity)
    {
      this.capacity := capacity;
      buffer := new BufferList();
      size, numWrite, numRead, ended, error, popped := 0, 0, 0, false, false, [];
    }

    method Write(data: bytes) returns (n: nat)
      requires Valid()
      modifies this, buffer
      ensures Valid() && View() == old(View()).Write(data)
      ensures n == Min(|data|, old(View()).RemainingCapacity())
    {
      n := Min(|data|, capacity - size);
      var tmp := new BufferList.FromString(data[..n]);
      buffer.Append(tmp);
      size := size + n;
      numWrite := numWrite + n;
    }

    method PeekOutput(n: nat) returns (s: bytes)
      requires Valid()
      ensures s == View().Peek(n)
    {
      s := buffer.Concatenate(Min(n, size));
    }

    /** The prefix removal never leaves the range, so it never throws. */
    method PopOutput(n: nat)
      requires Valid()
      modifies this, buffer
      ensures Valid() && View() == old(View()).Pop(n)
    {
      var l := Min(n, size);
      popped := popped + buffer.Contents()[..l];
      var ok := buffer.RemovePrefix(l);
      assert ok;
      size := size - l;
      numRead := numRead + l;
    }

    method Read(n: nat) returns (s: bytes)
      requires Valid()
      modifies this, buffer
      ensures Valid() && View() == old(View()).Pop(n) && s == old(View()).Peek(n)
    {
      s := PeekOutput(n);
      PopOutput(n);
    }

    method EndInput()
      requires Valid()
      modifies this
      ensures Valid() && View() == old(View()).EndInput()
    {
      ended := true;
    }

    method SetError()
      requires Valid()
      modifies this
      ensures Valid() && View() == old(View()).SetError()
    {
      error := true;
    }

    predicate Eof()
      requires Valid()
      reads this, buffer
      ensures Eof() == View().Eof()
    {
      ended && size == 0
    }

    function RemainingCapacity(): (r: nat)
      requires Valid()
      reads this, buffer
      ensures r == View().RemainingCapacity()
    {
      capacity - size
    }

    function BytesWritten(): (r: nat)
      requires Valid()
      reads this, buffer
      ensures r == View().BytesWritten()
    {
      numWrite
    }
  }
}
