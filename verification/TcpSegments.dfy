/** TCP headers and segments as values. */
module TcpSegments {
  import opened Numbers

  datatype TcpHeader = TcpHeader(
    sport: u16, dport: u16, seqno: u32, ackno: u32, doff: u8,
    urg: bool, ack: bool, psh: bool, rst: bool, syn: bool, fin: bool,
    win: u16, cksum: u16, uptr: u16)

  /** A header as constructed by default: 20 bytes long, no flag set. */
  const PLAIN_HEADER: TcpHeader :=
    TcpHeader(0, 0, 0, 0, 5, false, false, false, false, false, false, 0, 0, 0)

  datatype Segment = Segment(header: TcpHeader, payload: bytes) {
    /** Payload bytes, plus one for SYN and one for FIN. */
    function Length(): nat {
      |payload| + (if header.syn then 1 else 0) + (if header.fin then 1 else 0)
    }
  }

  const EMPTY_SEGMENT: Segment := Segment(PLAIN_HEADER, [])
}
