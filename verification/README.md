# Sponge in Dafny

A model of the TCP/IP stack in `libsponge`, with proofs. The core is reliable
delivery: a sender that slices a byte stream into numbered segments, a receiver
that reassembles them, and a network that may lose, duplicate and reorder.
Around it stand the connection, the arithmetic and the wire formats below it,
and the network interface and router that carry it.

`dafny verify dfyconfig.toml` checks the whole project.

## How it is laid out

Each component has a value type for its state and functions that compute what
its operations do. Where the source works in place there is a class whose
methods, with the same loops, are proved to compute those functions on their
fields (`View() == Operation(old(View()), ...)`). What the source promises is
proved about the functions, as invariants over all runs.

| files | components |
|---|---|
| `Numbers`, `WrappingIntegers` | 32-bit sequence numbers and the 64-bit numbers they stand for |
| `Buffers`, `ByteStreams`, `StreamRuns` | chunked strings and the bounded byte stream |
| `Reassembly`, `ReassemblyRefinement`, `ReassemblyRuns`, `StoredCounts` | the stream reassembler, refined to a map from index to byte |
| `TcpSegments`, `Senders`, `SenderLedger`, `SenderWindow` | the sender, its ledger and timer, and its use of the window |
| `Receivers`, `ReceiverWindow` | the receiver, for any segment |
| `Network`, `EarlyFins`, `FinArrivals`, `LostByte` | sender, receiver and network together, and what the first FIN does |
| `Connections`, `ConnectionRuns`, `GiveUp`, `TcpStates` | the connection: forwarding, closing, giving up, state names |
| `Peers` | two connections over the network |
| `Checksums`, `Parsers`, `TcpCodec`, `Ipv4Codec` | checksums and wire formats |
| `NetworkInterfaces`, `ArpRuns`, `Routers` | ARP and longest-prefix routing |

## Where the code does less than it says

The model follows the code. In these places the promise is false, and the exact
condition for it is proved instead:

- A push truncated by the capacity still counts as the end of the stream, at
  once (`TruncatedPushEndsStream`) or after a later push
  (`TruncatedPushEndsStreamLater`). The end comes early in no continuation if
  and only if the push fits or, when empty, finds the last byte
  (`FinNeverEndsEarlyIff`). So a FIN that comes with data into a full window
  loses that data (`FinIntoFullWindowLosesByte`), and the same condition is
  exact for the receiver (`FinArrivalIff`).
- Of end-to-end safety, these clauses hold in the runs in which the first FIN
  meets that condition (`Network.Safe`): an ended output is complete, the
  acknowledged number is not beyond the receiver's, everything acknowledged is
  in the output, and no segment leaves the range of the reassembler. The rest
  holds in all runs (`EarlyFins.Safe`): the output is a prefix, nothing unsent
  is acknowledged, no acknowledgment is rejected, and at most one byte is
  acknowledged without being in the output.
- Bytes submitted twice can be counted twice among the unassembled ones
  (`ResubmittedBytesCountTwice`, `CountStaysExactIff`).
- A window that shrinks below what is in flight is overrun
  (`ShrunkWindowIsOverrun`, `FillRespectsWindowIff`).
- A payload near number zero, or behind a counted FIN while the window is
  closed, can pass the window test and still violate what the reassembler
  demands (`StaleNumberLeavesRange`, `CountedFinLeavesRange`,
  `InboundFitsIff`); the acknowledgment number can go back after an early FIN
  (`AcknoGoesBack`, `AcknoMonotoneIff`).
- A datagram with a wrong header checksum is accepted
  (`WrongChecksumIsAccepted`).
- A default route is used only when it is the first entry
  (`SecondDefaultIsMissed`, `ChoosesBestIff`).
- A tick of 2^32 ms ages no ARP entry (`HugeTickAgesNothing`, `AgedRightlyIff`).

## Conventions

- Sequence numbers, windows, ARP counters, checksums and timeouts are computed
  in the widths of the source. Byte counts and absolute sequence numbers are
  unbounded integers; where 2^64 matters it is a condition (`Small`, `Near`,
  `Fits`).
- Preconditions state what the source needs in order not to run into undefined
  behaviour: a push starts at or below the right edge (`Pushable`,
  `Deliverable`), a reply answers an open request (`Expected`), prefix lengths
  are at most 32, routes name existing interfaces. The owner does not write
  after ending the input.
- Outgoing queues collect everything ever queued; the owner only takes from
  their front. The sender additionally keeps a log of every segment with its
  absolute number, which is what the network may deliver.
- Shifts and flag tests are written as divisions; a bitwise and as a recursion
  over bits.
- Ethernet frames carry parsed ARP messages and datagrams. Addresses are
  numbers. The clock is a parameter, and the initial sequence number is
  arbitrary.

## Model

| member | source | states |
|---|---|---|
| Network.RunIsSafe | libsponge/tcp_sender.cc:40-176 | Every state of every run of one sender and one receiver over a network that loses, duplicates and reorders, in which no arriving number is ambiguous and a first FIN has or finds the last byte: the output is a prefix of what was written and ended only when complete, the acknowledgment numbers of both ends are ordered, everything acknowledged has been delivered, no acknowledgment is rejected and no segment breaks the reassembler |
| Network.ShortRunIsSafe | libsponge/tcp_sender.cc:40-176 | The same for streams under 2^31 with no condition on the numbers: whatever was ever sent may arrive at any time |
| EarlyFins.RunIsSafe | libsponge/tcp_sender.cc:40-176 | In every run of one sender and one receiver over that network, with no condition on FINs: the output is a prefix of what was written, the receiver acknowledges nothing unsent, at most one byte is acknowledged without being written to the output, and no unambiguous acknowledgment is rejected |
| EarlyFins.ShortRunIsSafe | libsponge/tcp_sender.cc:40-176 | The same for streams under 2^31, with no condition on the numbers either |
| EarlyFins.StepKeeps | libsponge/tcp_receiver.cc:6-64 | Every step of the network keeps the weaker invariant, whatever FIN arrives |
| EarlyFins.AcknoSent | libsponge/tcp_receiver.cc:54-56 | With an early FIN too, the receiver acknowledges at most one number beyond its next byte, and nothing unsent |
| Network.StepKeeps | libsponge/tcp_receiver.cc:6-64 | Every step of that network keeps the invariant that ties sender, receiver and the acknowledgments on the wire |
| Network.InvIsSafe | libsponge/tcp_sender.cc:86-130 | The invariant implies all the safety properties |
| Network.ArrivalKeeps | libsponge/tcp_receiver.cc:26-56 | A segment ever sent, arriving late, twice or out of order, never leaves the range of the reassembler and keeps the receiver on the stream |
| Network.AckKeeps | libsponge/tcp_sender.cc:86-130 | An acknowledgment ever sent is never rejected and moves the sender no further than the receiver has got |
| Network.AcknoSent | libsponge/tcp_receiver.cc:54-56 | The receiver never acknowledges a number that was not sent |
| Network.DataArrives | libsponge/tcp_receiver.cc:26-63 | A genuine data or FIN segment keeps the receiver on the stream and never lowers its acknowledgment number |
| Network.SynArrives | libsponge/tcp_receiver.cc:18-56 | The SYN fixes the numbering and nothing else |
| Network.ShortSegmentIsNear | libsponge/wrapping_integers.cc:26-43 | For streams under 2^31 no segment ever sent is ambiguous to the receiver |
| Network.ShortAckIsNear | libsponge/wrapping_integers.cc:26-43 | For streams under 2^31 no acknowledgment ever sent is ambiguous to the sender |
| Network.FinFitsNow | libsponge/tcp_receiver.cc:46-56 | A FIN that is not ignored finds the last byte, because it is ready or an earlier one was |
| FinArrivals.FinArrivalIff | libsponge/tcp_receiver.cc:40-56 | Nothing that may follow a first FIN makes the receiver end its output or acknowledge the FIN before all bytes are written, if and only if the FIN brings the last byte below the right edge or finds it written or stored |
| FinArrivals.ReadyIsHonest | libsponge/tcp_receiver.cc:14-56 | Once the last byte is known, every continuation of segments and reads ends the output and counts the FIN only when all is written |
| FinArrivals.DeceivedIsDishonest | libsponge/tcp_receiver.cc:46-56 | Otherwise the FIN is acknowledged early, at once or after the segment that fills the gap before what is stored |
| LostByte.FinIntoFullWindowLosesByte | libsponge/tcp_sender.cc:57-71 | A run of the real sender and receiver: with a full receive buffer of one byte the sender, which takes a zero window for one, sends the last byte with FIN, and the output ends without that byte |
| LostByte.OutputEndsShort | libsponge/tcp_receiver.cc:40-56 | One step more, and the run ends the output with a byte missing: that an ended output is complete needs the condition on FINs |
| ReassemblyRuns.RunDelivers | libsponge/stream_reassembler.cc:21-109 | In every run of pushes and reads cut from one stream, the output is that stream up to the least index not accepted, the rest that was accepted is stored, and pieces lie strictly ahead of the output and at most the capacity ahead of the reader |
| ReassemblyRuns.RunRefines | libsponge/stream_reassembler.cc:21-109 | Every run simulates the same run of a map from index to byte |
| ReassemblyRefinement.PushRefines | libsponge/stream_reassembler.cc:21-109 | One push does to the reassembler what it does to the byte map |
| ReassemblyRefinement.ReadRefines | libsponge/byte_stream.cc:31-39 | One read does to the reassembler what it does to the byte map |
| ReassemblyRefinement.OutputIsLongestPrefix | libsponge/stream_reassembler.cc:92-99 | The output is the longest contiguous prefix of the accepted bytes |
| ReassemblyRefinement.PushKeeps | libsponge/stream_reassembler.cc:21-109 | A push accepts exactly the bytes offered below the right edge, keeps agreement with every stream that has those bytes, and ends the output exactly in the stated cases |
| ReassemblyRefinement.WriteKeeps | libsponge/stream_reassembler.cc:92-99 | The write of the merged piece is never truncated and leaves nothing stored at or behind the output |
| ReassemblyRefinement.AbsorbKeeps | libsponge/stream_reassembler.cc:53-89 | The two merge loops keep the covered indices, the bytes and the stored count, and leave no piece touching the merged one from its start on |
| ReassemblyRefinement.MergeCut | libsponge/stream_reassembler.cc:111-133 | Merging two pieces of one stream gives the piece of that stream covering both |
| ReassemblyRefinement.TotalZero | libsponge/stream_reassembler.cc:141-145 | The stored byte count is zero exactly when nothing is stored |
| StoredCounts.CountStaysExactIff | libsponge/stream_reassembler.cc:53-103 | A push keeps the reported number equal to the number of stored indices if and only if the backward loop does not skip a predecessor that holds some of its bytes already |
| StoredCounts.TotalIsStoredIff | libsponge/stream_reassembler.cc:135-139 | The sizes of the pieces add up to the number of indices they hold exactly when no piece reaches into a later one |
| StoredCounts.OverlapsIff | libsponge/stream_reassembler.cc:53-89 | The merged piece overlaps what is left exactly when its predecessor reaches into it and the loop stops at the successor or at the front |
| StoredCounts.ResubmittedBytesCountTwice | libsponge/stream_reassembler.hh:77-81 | Two bytes submitted twice are counted twice, against the documented promise |
| Reassembly.Merge | libsponge/stream_reassembler.cc:111-133 | Two pieces merge exactly when they overlap or touch, into their common range |
| Reassembly.Clip | libsponge/stream_reassembler.cc:35-50 | The part of a push between the first unassembled byte and the right edge |
| ReassemblyRuns.RunEofExact | libsponge/stream_reassembler.cc:23-32 | In every run whose first end-flagged push has or finds the last byte, the output is ended exactly when the end was announced and all bytes are written |
| ReassemblyRuns.FinNeverEndsEarlyIff | libsponge/stream_reassembler.cc:23-107 | A first end-flagged push ends the output early in no continuation of pushes of the stream and reads, if and only if it fits below the right edge or, when empty, the last byte is written or stored |
| ReassemblyRuns.FinExactIff | libsponge/stream_reassembler.cc:23-107 | Right after such a push the end of the output is exact under the same condition only |
| ReassemblyRuns.KnownEndStaysExact | libsponge/stream_reassembler.cc:21-109 | Once the end is announced and the last byte known, every run keeps the end of the output exact |
| ReassemblyRuns.UnfitEndsEarly | libsponge/stream_reassembler.cc:105-107 | Announced without the last byte, the end comes early, at once or after one push that fills the gap |
| ReassemblyRuns.TruncatedPushEndsStreamLater | libsponge/stream_reassembler.cc:23-107 | A truncated push that is stored ends the output one push later, without the last byte |
| ReassemblyRuns.TruncatedPushEndsStream | libsponge/stream_reassembler.hh:51-61 | A push truncated by the capacity ends the output early, against the documented promise that its end flag is disregarded |
| Reassembly.StreamReassembler.PushSubstring | libsponge/stream_reassembler.cc:21-109 | The method computes Push on the values of its fields |
| Reassembly.StreamReassembler.MergeFront | libsponge/stream_reassembler.cc:53-75 | The backward loop computes MergeBackward |
| Reassembly.StreamReassembler.MergeBack | libsponge/stream_reassembler.cc:79-89 | The forward loop computes MergeForward |
| Reassembly.StreamReassembler.MergeOne | libsponge/stream_reassembler.cc:61-70 | One stored piece is merged and erased, or there is a gap |
| Reassembly.StreamReassembler.AssembleSubstring | libsponge/stream_reassembler.cc:35-103 | Clipping, merging and placing compute Assemble |
| Reassembly.StreamReassembler.Place | libsponge/stream_reassembler.cc:92-103 | Writing or storing the merged piece computes WriteOrStore |
| Reassembly.StreamReassembler.constructor | libsponge/stream_reassembler.cc:6-14 | A new reassembler is empty |
| SenderLedger.RunKeeps | libsponge/tcp_sender.cc:40-176 | In every run with less than 2^31 in flight, the sender keeps its ledger (contiguous outstanding segments from the acknowledged number, each carrying the stream bytes of its number, counters exact), its log and its timer |
| SenderLedger.CallKeeps | libsponge/tcp_sender.cc:40-176 | Every call keeps that invariant, forgets nothing sent and moves numbers only forward |
| SenderLedger.AckKeeps | libsponge/tcp_sender.cc:86-130 | An acknowledgment moves the acknowledged number to the greatest outstanding segment end it covers, or leaves it |
| SenderLedger.DropAckedKeeps | libsponge/tcp_sender.cc:104-115 | The pop loop drops exactly the covered segments and lands on the greatest covered boundary |
| SenderLedger.OldestStartsAtAckno | libsponge/tcp_sender.cc:105-111 | Unwrapping the oldest outstanding segment finds it at the acknowledged number |
| SenderLedger.FillKeeps | libsponge/tcp_sender.cc:40-79 | Filling the window keeps the ledger and the timer |
| SenderLedger.SliceGenuine | libsponge/tcp_sender.cc:63-71 | A new segment carries exactly the stream bytes at its own number, with FIN only at the end of an ended stream |
| SenderLedger.TickKeeps | libsponge/tcp_sender.cc:133-151 | An expiry always finds something outstanding and resends the segment at the acknowledged number; the timeout is the initial one times a power of two |
| SenderLedger.WriteKeeps | libsponge/byte_stream.cc:12-22 | Writing before the end of input keeps everything already sent genuine |
| SenderLedger.SendEmptyKeeps | libsponge/tcp_sender.cc:159-165 | An empty segment keeps ledger, log and timer |
| SenderWindow.FillRespectsWindowIff | libsponge/tcp_sender.cc:57-78 | After the handshake, filling stays within the window but for a FIN if and only if the window was not already exceeded or nothing is buffered; it then stops only when full or drained, with payloads of at most 1452 bytes |
| SenderWindow.FillLoopBound | libsponge/tcp_sender.cc:59-78 | Starting within the window, in flight stays within it plus a new FIN |
| SenderWindow.FillLoopOverrun | libsponge/tcp_sender.cc:59-65 | Starting beyond the window, the unsigned difference wraps and the whole buffer is sent |
| SenderWindow.ShrunkWindowIsOverrun | libsponge/tcp_sender.cc:59-65 | A run, for any initial sequence number, at whose end the peer has shrunk its window to one with two bytes in flight, and filling sends a third |
| Senders.TCPSender.FillTheWindow | libsponge/tcp_sender.cc:39-79 | The method computes FillWindow |
| Senders.TCPSender.FillOpenWindow | libsponge/tcp_sender.cc:59-78 | The loop computes FillLoop and terminates |
| Senders.TCPSender.SendSlice | libsponge/tcp_sender.cc:63-77 | One round of the loop computes Sliced |
| Senders.TCPSender.CutSegment | libsponge/tcp_sender.cc:63-71 | Reading a slice and setting FIN computes Slice |
| Senders.TCPSender.MakeSegmentAndSend | libsponge/tcp_sender.cc:167-176 | Numbers, queues and keeps a segment |
| Senders.TCPSender.SendEmptySegment | libsponge/tcp_sender.cc:159-165 | Queues an empty segment at the next number |
| Senders.TCPSender.Acknowledge | libsponge/tcp_sender.cc:85-130 | The method computes AckReceived and reports whether the number was acceptable |
| Senders.TCPSender.DropAcknowledged | libsponge/tcp_sender.cc:104-115 | The pop loop computes DropAcked |
| Senders.TCPSender.Advance | libsponge/tcp_sender.cc:101-128 | A new acknowledgment drops, fills and restarts the timer |
| Senders.TCPSender.ResetTimer | libsponge/tcp_sender.cc:120-128 | Restarts the timer, and stops it when nothing is outstanding |
| Senders.TCPSender.PassTime | libsponge/tcp_sender.cc:133-151 | The method computes Tick |
| Senders.TCPSender.HandleExpiry | libsponge/tcp_sender.cc:141-149 | An expiry computes Expire |
| Senders.TCPSender.DoubleTimeout | libsponge/tcp_sender.cc:141-144 | Counts the expiry, doubles the timeout and restarts the timer |
| Senders.TCPSender.Queue | libsponge/tcp_sender.cc:174 | Queues a segment for sending |
| Senders.TCPSender.constructor | libsponge/tcp_sender.cc:13-31 | A new sender has sent nothing |
| ReceiverWindow.SegmentKeeps | libsponge/tcp_receiver.cc:5-64 | Whatever segment arrives, checkpoint and acknowledgment number stay those of the first unassembled byte |
| ReceiverWindow.WindowStartExact | libsponge/tcp_receiver.cc:26-28 | The unwrapped window start is the first unassembled byte plus one, plus one more once FIN is counted |
| ReceiverWindow.InboundFitsIff | libsponge/tcp_receiver.cc:36-42 | A payload that passes the window test meets the demand of the reassembler if and only if its number is not zero, its end does not wrap around 2^64, and it is not the one number that a closed window admits after a FIN was counted |
| ReceiverWindow.CountedFinLeavesRange | libsponge/tcp_receiver.cc:26-42 | SYN, a byte that fills the buffer, a FIN outside the window: the next byte but one passes the window test and lies beyond the right edge |
| ReceiverWindow.AcknoMonotoneIff | libsponge/tcp_receiver.cc:54-56 | The acknowledgment number never decreases, except exactly when bytes are stored ahead of a gap after a FIN was counted |
| ReceiverWindow.StaleNumberLeavesRange | libsponge/tcp_receiver.cc:31-42 | After a SYN, two bytes numbered from the SYN itself pass the window test and are pushed far beyond the right edge |
| ReceiverWindow.AcknoGoesBack | libsponge/tcp_receiver.cc:54-56 | SYN, a bare FIN ahead of four missing bytes, then the last of them: the acknowledgment number goes back |
| Receivers.TCPReceiver.SegmentArrives | libsponge/tcp_receiver.cc:5-64 | The method computes SegmentReceived and its result |
| Receivers.TCPReceiver.InWindow | libsponge/tcp_receiver.cc:26-38 | The window test |
| Receivers.TCPReceiver.PushInbound | libsponge/tcp_receiver.cc:26-44 | The window test and the push |
| Receivers.TCPReceiver.FinishSegment | libsponge/tcp_receiver.cc:46-56 | FIN and the new acknowledgment number |
| Receivers.TCPReceiver.CurrentAckno | libsponge/tcp_receiver.cc:66-74 | No acknowledgment number before a SYN |
| Receivers.TCPReceiver.WindowSize | libsponge/tcp_receiver.cc:76-80 | The window is the room left in the output |
| Receivers.TCPReceiver.constructor | libsponge/tcp_receiver.hh:30-31 | A new receiver has heard nothing |
| Peers.RunIsSafe | libsponge/tcp_connection.cc:47-261 | In every run of two connections over a network that loses, duplicates and reorders, each output is a prefix of what the other application wrote; if the first FINs have or find the last byte, once either connection is closed without error nothing is missing in either direction |
| Peers.ShortRunIsSafe | libsponge/tcp_connection.cc:47-261 | The same for streams under 2^31 with no condition on the numbers |
| Peers.StepKeeps | libsponge/tcp_connection.cc:47-261 | Every call of an owner and every arrival of a segment ever forwarded keeps the invariant of both directions |
| Peers.ClosedIsComplete | libsponge/tcp_connection.cc:221-238 | One connection closed without error: both outputs hold all that was written |
| Peers.ShortIsUnambiguous | libsponge/wrapping_integers.cc:26-43 | For streams under 2^31 nothing that may happen is ambiguous |
| Peers.ShortIsLegal | libsponge/tcp_receiver.cc:26-44 | Where FINs are ready too, no segment breaks the reassembler of either side |
| Peers.SameArrival | libsponge/tcp_connection.cc:32-45 | The receiver treats a forwarded copy like the segment its sender made |
| ConnectionRuns.RunKeeps | libsponge/tcp_connection.cc:47-261 | In every run, everything the sender made was forwarded once and in order, and an inactive connection has failed on both streams or has its inbound stream ended, its FIN sent and all its sequence numbers acknowledged |
| ConnectionRuns.CallKeeps | libsponge/tcp_connection.cc:32-45 | Every call leaves the sender queue empty and stamps each segment it queues with the current acknowledgment and window |
| ConnectionRuns.SegmentKeeps | libsponge/tcp_connection.cc:47-149 | An arriving segment keeps the invariant |
| ConnectionRuns.ResetKeeps | libsponge/tcp_connection.cc:56-91 | A reset is ignored or fails both streams, and keeps the invariant |
| ConnectionRuns.AckReceivedKeeps | libsponge/tcp_connection.cc:104-129 | An acknowledgment keeps the invariant |
| ConnectionRuns.RespondKeeps | libsponge/tcp_connection.cc:131-148 | The answer to a segment keeps the invariant |
| ConnectionRuns.TickKeeps | libsponge/tcp_connection.cc:201-239 | Time passing keeps the invariant, including give-up and close |
| ConnectionRuns.CloseKeeps | libsponge/tcp_connection.cc:221-238 | A connection closes exactly when its inbound stream has ended, its FIN and all before it are acknowledged, and it need not linger or has done so for ten timeouts since the last segment |
| ConnectionRuns.DrainKeeps | libsponge/tcp_connection.cc:142-147 | Draining forwards every queued segment, once, in order, stamped |
| ConnectionRuns.SendResetKeeps | libsponge/tcp_connection.cc:179-197 | Sending a reset keeps the invariant and fails both streams |
| GiveUp.GiveUpBounds | libsponge/tcp_connection.cc:207-219 | In silence a connection gives up no earlier than 511 initial timeouts, and no later than that plus eight ticks |
| GiveUp.ExpiryBounds | libsponge/tcp_sender.cc:133-151 | For every k, as long as the k-th timeout fits in 64 bits: after k expiries the silent time is at least (2^k - 1) timeouts plus the timer, and, when no tick exceeds d ms, at most k(d - 1) ms more; the connection is active exactly until the ninth |
| GiveUp.TimeoutExact | libsponge/tcp_sender.cc:142-144 | The timeout after k expiries is the initial one times 2^k while that fits in 64 bits |
| GiveUp.TickClosesIff | libsponge/tcp_connection.cc:201-239 | A tick ends an active connection if and only if it is the ninth expiry in a row, or all is done and it need not linger or has done so for ten timeouts |
| GiveUp.TickInSilence | libsponge/tcp_connection.cc:201-219 | One tick of silence moves only the timer and gives up exactly on the ninth expiry |
| Connections.TCPConnection.SegmentArrives | libsponge/tcp_connection.cc:47-149 | The method computes SegmentReceived |
| Connections.TCPConnection.Continue | libsponge/tcp_connection.cc:103-148 | The sender part of an arriving segment computes Proceed |
| Connections.TCPConnection.ReceiveReset | libsponge/tcp_connection.cc:56-91 | The three special cases of a reset |
| Connections.TCPConnection.ReceiveAck | libsponge/tcp_connection.cc:104-129 | An acknowledgment, or the answer to one from the future |
| Connections.TCPConnection.Answer | libsponge/tcp_connection.cc:131-148 | Data, or else an empty acknowledgment |
| Connections.TCPConnection.SetAckAndWindow | libsponge/tcp_connection.cc:32-45 | The receiver part of a header |
| Connections.TCPConnection.ForwardQueue | libsponge/tcp_connection.cc:142-147 | The drain loop computes Drain |
| Connections.TCPConnection.PopAndForward | libsponge/tcp_connection.cc:207-219 | Forwards the front of the queue |
| Connections.TCPConnection.SendAckSegment | libsponge/tcp_connection.cc:136-140 | Forwards an empty acknowledgment |
| Connections.TCPConnection.SendResetSegment | libsponge/tcp_connection.cc:179-197 | Forwards a reset and dies |
| Connections.TCPConnection.Die | libsponge/tcp_connection.cc:194-196 | Both streams in error |
| Connections.TCPConnection.FillAndForward | libsponge/tcp_connection.cc:253-261 | Fills the window and forwards |
| Connections.TCPConnection.TimePasses | libsponge/tcp_connection.cc:201-239 | The method computes Tick |
| Connections.TCPConnection.ForwardRetransmission | libsponge/tcp_connection.cc:207-219 | Forwards a retransmission, or gives up |
| Connections.TCPConnection.CloseWhenDone | libsponge/tcp_connection.cc:221-238 | The two ways to close |
| Connections.TCPConnection.WriteData | libsponge/tcp_connection.cc:157-169 | Writes, fills and forwards |
| Connections.TCPConnection.EndInputStream | libsponge/tcp_connection.cc:241-251 | Ends, fills and forwards |
| Connections.TCPConnection.OpenConnection | libsponge/tcp_connection.cc:253-261 | Sends the SYN |
| Connections.TCPConnection.constructor | libsponge/tcp_connection.hh:111-115 | A new connection is active and lingers |
| TcpStates.SenderSummaryExact | libsponge/tcp_helpers/tcp_state.cc:109-127 | The summary computed from counters is each value exactly when the protocol flags say so |
| TcpStates.OfficialExact | libsponge/tcp_helpers/tcp_state.cc:26-93 | The computed summary of a reachable connection is each of the twelve official states exactly when its meaning holds |
| TcpStates.InactiveIsOfficial | libsponge/tcp_helpers/tcp_state.cc:71-93 | An inactive connection is officially closed or reset |
| WrappingIntegers.UnwrapInvertsWrap | libsponge/wrapping_integers.cc:9-43 | Unwrapping undoes wrapping if and only if the number is the nearest of its class around the 64-bit circle (below 2^32 for a zero checkpoint) |
| WrappingIntegers.UnwrapIsNearest | libsponge/wrapping_integers.cc:26-43 | Every 32-bit number comes back from unwrapping and wrapping, and the result is the nearest |
| WrappingIntegers.UnwrapNear | libsponge/wrapping_integers.cc:26-43 | Numbers more than -2^31 and at most 2^31 away come back unchanged |
| StreamRuns.StreamIsQueue | libsponge/byte_stream.cc:12-39 | For any sequence of calls, what was delivered followed by what is buffered is what was held followed by what was accepted |
| ByteStreams.ByteStream.Write | libsponge/byte_stream.cc:12-22 | Accepts as much as there is room for |
| ByteStreams.ByteStream.PeekOutput | libsponge/byte_stream.cc:24-29 | The first bytes of the buffer |
| ByteStreams.ByteStream.PopOutput | libsponge/byte_stream.cc:31-39 | Removes from the front and never throws |
| ByteStreams.ByteStream.Read | libsponge/byte_stream.hh:63-71 | Peek, then pop |
| ByteStreams.ByteStream.EndInput | libsponge/byte_stream.cc:41-45 | Ends the input |
| ByteStreams.ByteStream.RemainingCapacity | libsponge/byte_stream.cc:84-88 | The room left |
| ByteStreams.ByteStream.BytesWritten | libsponge/byte_stream.cc:72-76 | Everything ever accepted |
| Buffers.BufferList.RemovePrefix | libsponge/util/buffer.cc:73-89 | Dropping by chunks is dropping from the concatenation; it throws exactly when there are too few bytes |
| Buffers.BufferList.Concatenate | libsponge/util/buffer.cc:48-61 | The first n bytes of the concatenation |
| Buffers.BufferList.Append | libsponge/util/buffer.cc:17-23 | Appends the contents |
| Buffers.BufferList.Size | libsponge/util/buffer.cc:63-71 | The length of the concatenation |
| Buffers.DropFront | libsponge/util/buffer.cc:5-15 | Discards bytes of one chunk, or throws |
| Checksums.FoldKeeps | libsponge/util/util.cc:113-123 | Folding terminates, keeps the sum modulo 65535 and is zero only for zero |
| Checksums.WordSumConcat | libsponge/util/util.cc:100-111 | Adding in pieces is adding the concatenation |
| Checksums.ValueCompletes | libsponge/util/util.cc:113-123 | A sum completed with its own checksum checks out |
| Checksums.ValueZeroIff | libsponge/util/util.cc:113-123 | A sum checks out exactly when it is a positive multiple of 65535 |
| Checksums.OneByteNoticed | libsponge/util/util.cc:100-123 | Changing any one byte of data that checks out is noticed, for any length and however often the 32-bit sum wraps around |
| Checksums.InternetChecksum.Add | libsponge/util/util.cc:100-111 | The byte loop adds the word sum in 32 bits and tracks parity |
| Checksums.InternetChecksum.Result | libsponge/util/util.cc:113-123 | The folding loop computes the checksum |
| Parsers.ParseUnparse | libsponge/util/parser.cc:30-70 | An integer that fits, written and read, comes back and leaves the rest |
| Parsers.NetParser.ReadInt | libsponge/util/parser.cc:30-49 | The byte loop reads a big-endian integer, or reports that there are too few bytes |
| Parsers.NetParser.RemovePrefix | libsponge/util/parser.cc:51-59 | Skips bytes, or reports that there are too few |
| Parsers.UnparseInt | libsponge/util/parser.cc:61-70 | The shift loop writes a big-endian integer |
| TcpCodec.SegmentRoundTrip | libsponge/tcp_helpers/tcp_segment.cc:12-51 | Parsing a serialized segment verifies the checksum and returns the segment |
| TcpCodec.CorruptionIsRejected | libsponge/tcp_helpers/tcp_segment.cc:12-25 | A segment with any one byte changed is rejected |
| TcpCodec.HeaderRoundTrip | libsponge/tcp_helpers/tcp_header.cc:17-84 | Parsing a serialized header returns every field and what follows |
| TcpCodec.ReadHeader | libsponge/tcp_helpers/tcp_header.cc:17-51 | Reads the fields in order and skips the options |
| TcpCodec.WriteHeader | libsponge/tcp_helpers/tcp_header.cc:53-84 | Writes the fields in order and pads, or throws |
| TcpCodec.ReadSegment | libsponge/tcp_helpers/tcp_segment.cc:12-25 | Checks the sum, then parses |
| TcpCodec.WriteSegment | libsponge/tcp_helpers/tcp_segment.cc:34-51 | Fills in the checksum and appends the payload |
| Ipv4Codec.DatagramRoundTrip | libsponge/tcp_helpers/ipv4_datagram.cc:11-45 | Parsing a serialized datagram returns it with a correct checksum |
| Ipv4Codec.WrittenParses | libsponge/tcp_helpers/ipv4_datagram.cc:11-23 | A consistent datagram is accepted whatever its checksum field says; only the header parse, whose result is not looked at, tells |
| Ipv4Codec.WrongChecksumIsAccepted | libsponge/tcp_helpers/ipv4_datagram.cc:14-22 | Every datagram with a wrong checksum is accepted although its header parse reports it (0 and 65535 stand for the same checksum) |
| Ipv4Codec.HeaderRoundTrip | libsponge/tcp_helpers/ipv4_header.cc:23-77 | Parsing a serialized header returns every field, and reports a bad checksum exactly when it is wrong |
| Ipv4Codec.TcpInIpRoundTrip | libsponge/tcp_helpers/ipv4_header.cc:117-141 | A TCP segment inside a datagram comes back through both layers |
| Ipv4Codec.ReadHeader | libsponge/tcp_helpers/ipv4_header.cc:23-77 | Reads and checks a header |
| Ipv4Codec.WriteHeader | libsponge/tcp_helpers/ipv4_header.cc:80-114 | Writes a header, or throws |
| Ipv4Codec.ReadDatagram | libsponge/tcp_helpers/ipv4_datagram.cc:11-23 | Parses a datagram |
| Ipv4Codec.WriteDatagram | libsponge/tcp_helpers/ipv4_datagram.cc:25-45 | Serializes a datagram, or throws |
| ArpRuns.RunConserves | libsponge/network_interface.cc:24-147 | In every run, whatever the ticks, each datagram submitted for a hop is exactly once sent, waiting or expired, and the frames queued are those of the events recorded |
| ArpRuns.RunKeeps | libsponge/network_interface.cc:24-147 | In every run whose ticks erase exactly what is due, the trace tells the frames sent and is legal |
| ArpRuns.SentToLastAnnounced | libsponge/network_interface.cc:30-38 | Every datagram goes to the address last announced for its next hop, less than 30 s before |
| ArpRuns.RequestsApart | libsponge/network_interface.cc:40-61 | Two requests for one address with no reply between them are at least 5 s apart |
| ArpRuns.SendKeeps | libsponge/network_interface.cc:24-63 | Sending keeps the invariant |
| ArpRuns.HearKeeps | libsponge/network_interface.cc:65-121 | Receiving keeps the invariant |
| ArpRuns.TickKeeps | libsponge/network_interface.cc:123-147 | A tick keeps the invariant if and only if every entry ages rightly |
| NetworkInterfaces.AgedRightlyIff | libsponge/network_interface.cc:129-145 | An entry is kept exactly when its time is not up, if and only if the tick is shorter than its counter or exceeds it by at most half a turn of 32 bits, modulo whole turns |
| NetworkInterfaces.HugeTickAgesNothing | libsponge/network_interface.cc:129-139 | A tick of 2^32 ms ages nothing |
| NetworkInterfaces.NetworkInterface.Send | libsponge/network_interface.cc:24-63 | The method computes SendDatagram |
| NetworkInterfaces.NetworkInterface.Receive | libsponge/network_interface.cc:65-121 | The method computes ReceiveFrame |
| NetworkInterfaces.NetworkInterface.HandleReply | libsponge/network_interface.cc:78-92 | The loop over the waiting datagrams computes ReplyReceived |
| NetworkInterfaces.NetworkInterface.PassTime | libsponge/network_interface.cc:123-147 | The method computes Tick |
| NetworkInterfaces.NetworkInterface.AgeCache | libsponge/network_interface.cc:127-136 | The loop erases exactly the expired addresses |
| NetworkInterfaces.NetworkInterface.AgePending | libsponge/network_interface.cc:137-146 | The loop erases exactly the expired waiting lists |
| Routers.ChoosesBestIff | libsponge/router.cc:58-73 | The loop picks the earliest of the longest matching routes if and only if no default route is out of place |
| Routers.DefaultFirstIsEnough | libsponge/router.cc:58-73 | With any default route first, every destination gets its best route |
| Routers.SecondDefaultIsMissed | libsponge/router.cc:58-73 | A default route listed second is missed: the first route is used although it does not match |
| Routers.MaskedClears | libsponge/router.cc:65-66 | The bitwise and with the complement of a shifted one less one clears exactly the bits below the prefix |
| Routers.MaskComparesPrefixes | libsponge/router.cc:65-66 | For a prefix without host bits the mask test is equality of the leading bits |
| Routers.DecideIff | libsponge/router.cc:45-84 | A datagram is dropped exactly when its time to live is up or nothing matches, and otherwise only loses one hop |
| Routers.RoutedOncePerPort | libsponge/router.cc:86-98 | Each datagram is sent once, on the port decided for it |
| Routers.Router.ChooseRoute | libsponge/router.cc:58-73 | The loop computes Scan |
| Routers.Router.RouteOneDatagram | libsponge/router.cc:45-84 | The method computes RouteOne |
| Routers.Router.DrainPort | libsponge/router.cc:92-96 | The inner loop empties one inbox |
| Routers.Router.RouteAll | libsponge/router.cc:86-98 | The loops route every received datagram and empty every inbox |
| Routers.AsyncNetworkInterface.Receive | libsponge/router.hh:30-37 | Keeps what arrives |
| ByteStreams.ByteStream.SetError | libsponge/byte_stream.hh:44-50 | Marks the stream as failed |
| ByteStreams.ByteStream.Eof | libsponge/byte_stream.cc:65-70 | Ended and drained |
| ByteStreams.ByteStream.constructor | libsponge/byte_stream.cc:7-10 | A new stream is empty and open |
| Buffers.BufferList.constructor | libsponge/util/buffer.hh:65 | An empty list |
| Buffers.BufferList.FromString | libsponge/util/buffer.hh:71-74 | A list of one chunk |
| Connections.TCPConnection.CountTime | libsponge/tcp_connection.cc:204-205 | Counts time and passes it on to the sender |
| Checksums.InternetChecksum.constructor | libsponge/util/util.cc:98 | Starts from a given sum |
| Parsers.NetParser.constructor | libsponge/util/parser.hh:38 | Reads from the start, without error |
| Parsers.NetParser.Check | libsponge/util/parser.cc:22-28 | Notes an error when there are too few bytes |
| Parsers.NetParser.NextU32 | libsponge/util/parser.cc:72-76 | Reads four bytes |
| Parsers.NetParser.NextU16 | libsponge/util/parser.cc:78-82 | Reads two bytes |
| Parsers.NetParser.NextU8 | libsponge/util/parser.cc:84-88 | Reads one byte |
| TcpCodec.ComputeChecksum | libsponge/tcp_helpers/tcp_segment.cc:41-44 | The checksum of header and payload is that of their concatenation |
| TcpCodec.ReadChecked | libsponge/tcp_helpers/tcp_segment.cc:21-24 | Parses a segment whose sum checks out |
| Ipv4Codec.PseudoChecksum | libsponge/tcp_helpers/ipv4_header.cc:133-141 | The sum of the pseudo header stays far below 32 bits |
| Ipv4Codec.ReadAllFields | libsponge/tcp_helpers/ipv4_header.cc:33-49 | Reads the fields in order |
| Ipv4Codec.Check | libsponge/tcp_helpers/ipv4_header.cc:51-76 | The checks, in order |
| Ipv4Codec.HeaderChecksum | libsponge/tcp_helpers/ipv4_header.cc:70-72 | The checksum of the header bytes |
| Ipv4Codec.WriteFront | libsponge/tcp_helpers/ipv4_header.cc:94-109 | Writes the fields in order |
| NetworkInterfaces.NetworkInterface.constructor | libsponge/network_interface.cc:11-17 | A new interface knows no address |
| Routers.AsyncNetworkInterface.constructor | libsponge/router.hh:16-22 | A new interface with an empty inbox |
| Routers.Router.RouteFront | libsponge/router.cc:93-96 | Routes the front of an inbox and removes it |
| Network.NewNetInv | libsponge/tcp_sender.cc:13-31 | Two new ends satisfy the invariant |
| ConnectionRuns.NewConnectionInv | libsponge/tcp_connection.hh:111-115 | A new connection satisfies the invariant |
| ConnectionRuns.FinishedStays | libsponge/tcp_connection.cc:225-238 | Once finished, a connection stays finished |

## Left out

- Programs in `apps/`, sockets, file descriptors, TUN/TAP, the event loop and the threads of the socket wrapper: system calls and plumbing.
- Lossy adapters: the network of the model already drops anything.
- `to_string`, `summary`, `hexdump` and debug output, and the destructor of the connection.
- Ethernet and ARP byte formats: fixed-width copies that would add only easy round trips.
- Name resolution and `Address`: a 32-bit number stands for an address.
- Shared storage of buffers: a buffer is an immutable string with an offset.
- `BufferViewList` and the conversion to I/O vectors: the same loops again, for system calls.
- Serialization of TCP and IP options: the source skips them when parsing and writes zeros.
- Liveness: nothing is proved about data arriving eventually, since the network may drop everything.
- Network.RunIsSafe: assumes that a segment or an acknowledgment is delivered only while its number is less than 2^31 away from the receiver's or sender's position, because 32 bits cannot tell older ones apart; Network.ShortRunIsSafe has no such condition. It also assumes ready FINs, which EarlyFins.RunIsSafe does not.
- Peers.RunIsSafe: assumes the same of both directions; Peers.ShortRunIsSafe does not.
- EarlyFins.RunIsSafe: says nothing beyond a segment that leaves the range of the reassembler, which an early FIN can bring about (ReceiverWindow.CountedFinLeavesRange) and after which the source has no defined behaviour.
- ArpRuns.RunKeeps: assumes that ARP replies answer an open request, because any other reply dereferences the end of a map in the source.
- Receivers.TCPReceiver.SegmentArrives: does not model a payload whose index wraps around 2^64, as that of a SYN with payload does; the source then drops it, or stores it where nothing reaches it.
- Receivers.TCPReceiver.PushInbound: does not model such a payload either.
- Connections.TCPConnection.SegmentArrives: does not model such a payload either.
