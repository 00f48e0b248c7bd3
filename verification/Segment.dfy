/** TCP headers and segments (section 3.1 of RFC 793). */
module Segments {
  import opened Widths

  datatype Header = Header(
    sport: uint16, dport: uint16, seqno: uint32, ackno: uint32, doff: byte,
    urg: bool, ack: bool, psh: bool, rst: bool, syn: bool, fin: bool,
    win: uint16, cksum: uint16, uptr: uint16)

  /** The header length without options, in bytes. */
  const LENGTH: nat := 20

  /** A header as it is before anyone fills it in. */
  const BLANK: Header := Header(0, 0, 0, 0, LENGTH / 4, false, false, false, false, false, false, 0, 0, 0)

  datatype Segment = Segment(header: Header, payload: seq<byte>) {
    /** SYN and FIN each occupy one sequence number. */
    function Length(): nat {
      |payload| + (if header.syn then 1 else 0) + (if header.fin then 1 else 0)
    }
  }
}
