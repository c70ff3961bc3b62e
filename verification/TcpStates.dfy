/** The summary of a connection's state, computed from counters, and the states of RFC 793 section 3.2. */
module TcpStates {
  import S = Senders
  import SL = SenderLedger
  import R = Receivers
  import opened Connections
  import CR = ConnectionRuns

  datatype SenderSummary = SenderError | Closed | SynSent | SynAcked | FinSent | FinAcked
  datatype ReceiverSummary = ReceiverError | Listen | SynRecv | FinRecv

  datatype TcpState = TcpState(sender: SenderSummary, receiver: ReceiverSummary, active: bool, linger: bool)

  function SummarizeSender(s: S.Sender): SenderSummary {
    if s.stream.error then SenderError
    else if s.next == 0 then Closed
    else if s.next == s.bytesInFlight then SynSent
    else if !s.stream.Eof() then SynAcked
    else if s.next < s.stream.BytesWritten() + 2 then SynAcked
    else if s.bytesInFlight != 0 then FinSent
    else FinAcked
  }

  function SummarizeReceiver(r: R.Receiver): ReceiverSummary {
    if r.Output().error then ReceiverError
    else if r.Ackno().None? then Listen
    else if r.Output().ended then FinRecv
    else SynRecv
  }

  function StateOf(c: Connection): TcpState {
    TcpState(SummarizeSender(c.sender), SummarizeReceiver(c.receiver), c.active, c.active && c.linger)
  }

  datatype Official =
    | LISTEN | SYN_RCVD | SYN_SENT | ESTABLISHED | CLOSE_WAIT | LAST_ACK
    | FIN_WAIT_1 | FIN_WAIT_2 | CLOSING | TIME_WAIT | CLOSED | RESET

  /** The table of official states; unless said otherwise active and lingering. */
  function Summary(o: Official): TcpState {
    match o
    case LISTEN => TcpState(Closed, Listen, true, true)
    case SYN_RCVD => TcpState(SynSent, SynRecv, true, true)
    case SYN_SENT => TcpState(SynSent, Listen, true, true)
    case ESTABLISHED => TcpState(SynAcked, SynRecv, true, true)
    case CLOSE_WAIT => TcpState(SynAcked, FinRecv, true, false)
    case LAST_ACK => TcpState(FinSent, FinRecv, true, false)
    case CLOSING => TcpState(FinSent, FinRecv, true, true)
    case FIN_WAIT_1 => TcpState(FinSent, SynRecv, true, true)
    case FIN_WAIT_2 => TcpState(FinAcked, SynRecv, true, true)
    case TIME_WAIT => TcpState(FinAcked, FinRecv, true, true)
    case RESET => TcpState(SenderError, ReceiverError, false, false)
    case CLOSED => TcpState(FinAcked, FinRecv, false, false)
  }

  /** What a sender's summary means in terms of the protocol. */
  ghost predicate SenderMeans(s: S.Sender, x: SenderSummary) {
    match x
    case SenderError => s.stream.error
    case Closed => !s.stream.error && !s.synSent
    case SynSent => !s.stream.error && s.synSent && !s.synAcked
    case SynAcked => !s.stream.error && s.synAcked && !s.finSent
    case FinSent => !s.stream.error && s.finSent && s.outstanding != []
    case FinAcked => !s.stream.error && s.finSent && s.outstanding == []
  }

  /** The counters agree with the protocol flags in every state of the sender's ledger. */
  lemma SenderSummaryExact(s: S.Sender, x: SenderSummary)
    requires SL.Inv(s)
    ensures SummarizeSender(s) == x <==> SenderMeans(s, x)
  {
    SL.ContiguousOrder(s.outstanding, s.recvAckno, s.next, SL.SourceOf(s));
    assert s.outstanding == [] <==> s.bytesInFlight == 0;
    assert s.finSent ==> s.synAcked;
  }

  /** What an official state means: who has sent and acknowledged what, and whether the connection lives. */
  ghost predicate Means(c: Connection, o: Official) {
    var s, r := c.sender, c.receiver;
    var heard := r.synReceived && !r.Output().ended;
    match o
    case LISTEN => c.active && c.linger && !s.stream.error && !s.synSent && !r.synReceived
    case SYN_SENT => c.active && c.linger && !s.stream.error && s.synSent && !s.synAcked && !r.synReceived
    case SYN_RCVD => c.active && c.linger && !s.stream.error && s.synSent && !s.synAcked && heard
    case ESTABLISHED => c.active && c.linger && !s.stream.error && s.synAcked && !s.finSent && heard
    case FIN_WAIT_1 => c.active && c.linger && !s.stream.error && s.finSent && s.outstanding != [] && heard
    case FIN_WAIT_2 => c.active && c.linger && !s.stream.error && s.finSent && s.outstanding == [] && heard
    case CLOSING => c.active && c.linger && !s.stream.error && s.finSent && s.outstanding != [] && r.Output().ended
    case TIME_WAIT => c.active && c.linger && !s.stream.error && s.finSent && s.outstanding == [] && r.Output().ended
    case CLOSE_WAIT => c.active && !c.linger && !s.stream.error && s.synAcked && !s.finSent
    case LAST_ACK => c.active && !c.linger && !s.stream.error && s.finSent && s.outstanding != []
    case CLOSED => !c.active && !s.stream.error
    case RESET => !c.active && s.stream.error
  }

  /** In every reachable state the computed summary is an official one exactly when its meaning holds. */
  lemma OfficialExact(c: Connection, o: Official)
    requires CR.Inv(c)
    ensures StateOf(c) == Summary(o) <==> Means(c, o)
  {
    SenderSummaryExact(c.sender, Summary(o).sender);
    SL.ContiguousOrder(c.sender.outstanding, c.sender.recvAckno, c.sender.next, SL.SourceOf(c.sender));
    if !c.active && !c.sender.stream.error {
      assert CR.Finished(c);
      assert c.sender.bytesInFlight == 0;
    }
  }

  /** A connection that is no longer active is officially closed or reset. */
  lemma InactiveIsOfficial(c: Connection)
    requires CR.Inv(c) && !c.active
    ensures StateOf(c) == if c.sender.stream.error then Summary(RESET) else Summary(CLOSED)
  {
    OfficialExact(c, RESET);
    OfficialExact(c, CLOSED);
  }
}
