/** Any sequence of calls on a byte stream: it is a bounded queue. */
module StreamRuns {
  import opened Numbers
  import opened ByteStreams

  datatype Call = Write(data: bytes) | Pop(n: nat) | EndInput

  function Apply(s: Stream, c: Call): Stream
    requires s.Bounded()
  {
    match c
    case Write(data) => s.Write(data)
    case Pop(n) => s.Pop(n)
    case EndInput => s.EndInput()
  }

  function RunCalls(s: Stream, calls: seq<Call>): (t: Stream)
    requires s.Bounded()
    ensures t.Bounded() && t.capacity == s.capacity
    decreases |calls|
  {
    if calls == [] then s else RunCalls(Apply(s, calls[0]), calls[1..])
  }

  /** The bytes that the writes of a run accepted, in call order. */
  function Accepted(s: Stream, calls: seq<Call>): bytes
    requires s.Bounded()
    decreases |calls|
  {
    if calls == [] then []
    else
      AcceptedBy(s, calls[0]) + Accepted(Apply(s, calls[0]), calls[1..])
  }

  /** The bytes that the pops of a run handed to the reader, in call order. */
  function Delivered(s: Stream, calls: seq<Call>): bytes
    requires s.Bounded()
    decreases |calls|
  {
    if calls == [] then []
    else
      DeliveredBy(s, calls[0]) + Delivered(Apply(s, calls[0]), calls[1..])
  }

  /** What one call accepts and what it hands over. */
  function AcceptedBy(s: Stream, c: Call): bytes
    requires s.Bounded()
  {
    if c.Write? then c.data[..Min(|c.data|, s.RemainingCapacity())] else []
  }

  function DeliveredBy(s: Stream, c: Call): bytes {
    if c.Pop? then s.Peek(c.n) else []
  }

  lemma CallIsQueue(s: Stream, c: Call)
    requires s.Bounded()
    ensures DeliveredBy(s, c) + Apply(s, c).buffer == s.buffer + AcceptedBy(s, c)
    ensures Apply(s, c).popped == s.popped + DeliveredBy(s, c)
  {
  }

  /** First in, first out: what was delivered, then what is still buffered, is what was held and accepted. */
  lemma {:induction false} StreamIsQueue(s: Stream, calls: seq<Call>)
    requires s.Bounded()
    ensures Delivered(s, calls) + RunCalls(s, calls).buffer == s.buffer + Accepted(s, calls)
    ensures RunCalls(s, calls).popped == s.popped + Delivered(s, calls)
    decreases |calls|
  {
    if calls != [] {
      var t := Apply(s, calls[0]);
      CallIsQueue(s, calls[0]);
      StreamIsQueue(t, calls[1..]);
      Regroup(DeliveredBy(s, calls[0]), Delivered(t, calls[1..]), RunCalls(s, calls).buffer, s.buffer,
              AcceptedBy(s, calls[0]), Accepted(t, calls[1..]), t.buffer);
      assert s.popped + DeliveredBy(s, calls[0]) + Delivered(t, calls[1..])
          == s.popped + (DeliveredBy(s, calls[0]) + Delivered(t, calls[1..]));
    }
  }

  lemma Regroup(d1: bytes, d2: bytes, last: bytes, first: bytes, a1: bytes, a2: bytes, middle: bytes)
    requires d1 + middle == first + a1
    requires d2 + last == middle + a2
    ensures d1 + d2 + last == first + (a1 + a2)
  {
    assert d1 + d2 + last == d1 + (d2 + last);
    assert d1 + (middle + a2) == d1 + middle + a2;
  }
}
