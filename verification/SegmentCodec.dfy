/** TCP headers and segments on the wire (section 3.1 of RFC 793). */
module SegmentCodec {
  import opened Widths
  import opened Segments
  import opened InternetChecksums
  import opened NetCodec

  // ---------------------------------------------------------------------------
  // Headers
  // ---------------------------------------------------------------------------

  function Bit(b: bool, weight: nat): (n: nat)
    ensures n <= weight
  {
    if b then weight else 0
  }

  /** The byte that holds the six flags. */
  function Flags(h: Header): (f: byte)
    ensures f < 64
  {
    Bit(h.urg, 32) + Bit(h.ack, 16) + Bit(h.psh, 8) + Bit(h.rst, 4) + Bit(h.syn, 2) + Bit(h.fin, 1)
  }

  /** The byte that holds the data offset; only its low four bits survive the shift. */
  function OffsetByte(h: Header): byte {
    h.doff * 16 % TWO8
  }

  /** The first sixteen bytes of a header with given offset and flag bytes, in front of `rest`. */
  function BeforeChecksum(h: Header, offset: byte, flags: byte, rest: seq<byte>): seq<byte> {
    Bytes(h.sport, 2) + (Bytes(h.dport, 2) + (Bytes(h.seqno, 4) + (Bytes(h.ackno, 4)
      + (Bytes(offset, 1) + (Bytes(flags, 1) + (Bytes(h.win, 2) + rest))))))
  }

  /** The twenty fixed bytes of such a header, in front of `rest`. */
  function Layout(h: Header, offset: byte, flags: byte, rest: seq<byte>): seq<byte> {
    BeforeChecksum(h, offset, flags, Bytes(h.cksum, 2) + (Bytes(h.uptr, 2) + rest))
  }

  function Fixed(h: Header, rest: seq<byte>): seq<byte> {
    Layout(h, OffsetByte(h), Flags(h), rest)
  }

  function Zeros(n: nat): (s: seq<byte>)
    ensures |s| == n
  {
    seq(n, _ => 0)
  }

  /** The header grown with zero bytes to its advertised size, or nothing if that is below the minimum. */
  function SerializeHeader(h: Header): Option<seq<byte>> {
    if h.doff < 5 then None else Some(Fixed(h, Zeros(4 * h.doff - LENGTH)))
  }

  function HasFlag(flags: nat, weight: nat): bool
    requires weight > 0
  {
    flags / weight % 2 == 1
  }

  datatype HeaderParse = HeaderParse(header: Header, result: ParseResult, after: Cursor)

  /** The fields are read one after the other; a field that cannot be read is zero. */
  function ParseHeader(c: Cursor): HeaderParse {
    var c1 := c.Skip(2);
    var c2 := c1.Skip(2);
    var c3 := c2.Skip(4);
    var c4 := c3.Skip(4);
    var c5 := c4.Skip(1);
    var c6 := c5.Skip(1);
    var c7 := c6.Skip(2);
    var c8 := c7.Skip(2);
    var c9 := c8.Skip(2);
    var h := Assemble(c.Peek(2), c1.Peek(2), c2.Peek(4), c3.Peek(4), c4.Peek(1), c5.Peek(1), c6.Peek(2), c7.Peek(2),
                      c8.Peek(2));
    if h.doff < 5 then HeaderParse(h, HeaderTooShort, c9) else
    var end := c9.Skip(4 * h.doff - LENGTH);
    HeaderParse(h, end.error, end)
  }

  /** The header made of the integers read, in the order of the format. */
  function Assemble(sport: nat, dport: nat, seqno: nat, ackno: nat, offset: nat, flags: nat,
      win: nat, cksum: nat, uptr: nat): Header
    requires sport < Limit(2) && dport < Limit(2) && seqno < Limit(4) && ackno < Limit(4) && offset < Limit(1)
    requires flags < Limit(1) && win < Limit(2) && cksum < Limit(2) && uptr < Limit(2)
  {
    Header(sport, dport, seqno, ackno, offset / 16,
           HasFlag(flags, 32), HasFlag(flags, 16), HasFlag(flags, 8),
           HasFlag(flags, 4), HasFlag(flags, 2), HasFlag(flags, 1),
           win, cksum, uptr)
  }

  // ---------------------------------------------------------------------------
  // Segments
  // ---------------------------------------------------------------------------

  /** The checksum of a segment: taken over everything, with a checksum field of zero. */
  function SegmentChecksum(seg: Segment, pseudo: uint32): uint16
    requires seg.header.doff >= 5
  {
    Checksum(pseudo, false).Add(SerializeHeader(seg.header.(cksum := 0)).value).Add(seg.payload).Value()
  }

  function SerializeSegment(seg: Segment, pseudo: uint32): Option<seq<byte>> {
    if seg.header.doff < 5 then None else
    Some(SerializeHeader(seg.header.(cksum := SegmentChecksum(seg, pseudo))).value + seg.payload)
  }

  datatype SegmentParse = Refused | Parsed(segment: Segment, result: ParseResult)

  /** The checksum decides first; after that only the error recorded in the parser counts. */
  function ParseSegment(bytes: seq<byte>, pseudo: uint32): SegmentParse {
    if Checksum(pseudo, false).Add(bytes).Value() != 0 then Refused else
    var p := ParseHeader(Cursor(bytes, NoError));
    Parsed(Segment(p.header, p.after.rest), p.after.error)
  }

  // ---------------------------------------------------------------------------
  // The imperative forms
  // ---------------------------------------------------------------------------

  method HeaderFrom(p: NetParser) returns (h: Header, result: ParseResult)
    modifies p
    ensures HeaderParse(h, result, p.Model()) == ParseHeader(old(p.Model()))
  {
    hide Cursor.Peek, Cursor.Skip, Limit;
    var sport := p.ParseInt(2);
    var dport := p.ParseInt(2);
    var seqno := p.ParseInt(4);
    var ackno := p.ParseInt(4);
    var offset := p.ParseInt(1);
    var flags := p.ParseInt(1);
    var win := p.ParseInt(2);
    var cksum := p.ParseInt(2);
    var uptr := p.ParseInt(2);
    h := Assemble(sport, dport, seqno, ackno, offset, flags, win, cksum, uptr);
    if h.doff < 5 {
      return h, HeaderTooShort;
    }
    p.RemovePrefix(4 * h.doff - LENGTH);
    result := p.error;
  }

  /** Appending nine pieces from left to right or from right to left gives the same bytes. */
  lemma Nested(p: seq<seq<byte>>, z: seq<byte>)
    requires |p| == 9
    ensures [] + p[0] + p[1] + p[2] + p[3] + p[4] + p[5] + p[6] + p[7] + p[8] + z
         == p[0] + (p[1] + (p[2] + (p[3] + (p[4] + (p[5] + (p[6] + (p[7] + (p[8] + z))))))))
  {
    var s5 := p[5] + (p[6] + (p[7] + (p[8] + z)));
    assert p[5] + p[6] + p[7] + p[8] + z == s5;
    var l5 := [] + p[0] + p[1] + p[2] + p[3] + p[4];
    assert l5 + p[5] + p[6] + p[7] + p[8] + z == l5 + (p[5] + p[6] + p[7] + p[8] + z);
    assert l5 + s5 == p[0] + (p[1] + (p[2] + (p[3] + (p[4] + s5))));
  }

  method HeaderBytes(h: Header) returns (ret: Option<seq<byte>>)
    ensures ret == SerializeHeader(h)
  {
    if h.doff < 5 {
      return None;
    }
    hide Bytes, Flags, OffsetByte;
    var s := [];
    s := UnparseInt(s, h.sport, 2);
    s := UnparseInt(s, h.dport, 2);
    s := UnparseInt(s, h.seqno, 4);
    s := UnparseInt(s, h.ackno, 4);
    s := UnparseInt(s, OffsetByte(h), 1);
    s := UnparseInt(s, Flags(h), 1);
    s := UnparseInt(s, h.win, 2);
    s := UnparseInt(s, h.cksum, 2);
    s := UnparseInt(s, h.uptr, 2);
    s := s + Zeros(4 * h.doff - |s|);
    Nested([Bytes(h.sport, 2), Bytes(h.dport, 2), Bytes(h.seqno, 4), Bytes(h.ackno, 4), Bytes(OffsetByte(h), 1),
            Bytes(Flags(h), 1), Bytes(h.win, 2), Bytes(h.cksum, 2), Bytes(h.uptr, 2)], Zeros(4 * h.doff - LENGTH));
    ret := Some(s);
  }

  method SegmentBytes(seg: Segment, pseudo: uint32) returns (ret: Option<seq<byte>>)
    ensures ret == SerializeSegment(seg, pseudo)
  {
    hide SerializeHeader, Checksum.Add, Checksum.Value;
    var first := HeaderBytes(seg.header.(cksum := 0));
    if first.None? {
      assert seg.header.doff < 5 by { SerializesIfLongEnough(seg.header.(cksum := 0)); }
      return None;
    }
    SerializesIfLongEnough(seg.header.(cksum := 0));
    var check := new InternetChecksum(pseudo);
    check.Add(first.value);
    check.Add(seg.payload);
    var cksum := check.Value();
    var second := HeaderBytes(seg.header.(cksum := cksum));
    SerializesIfLongEnough(seg.header.(cksum := cksum));
    ret := Some(second.value + seg.payload);
  }

  lemma SerializesIfLongEnough(h: Header)
    ensures SerializeHeader(h).Some? <==> h.doff >= 5
  {
  }

  method SegmentFrom(bytes: seq<byte>, pseudo: uint32) returns (r: SegmentParse)
    ensures r == ParseSegment(bytes, pseudo)
  {
    hide ParseHeader, Checksum.Add, Checksum.Value;
    var check := new InternetChecksum(pseudo);
    check.Add(bytes);
    var v := check.Value();
    if v != 0 {
      return Refused;
    }
    var p := new NetParser(bytes);
    var h, _ := HeaderFrom(p);
    r := Parsed(Segment(h, p.buffer), p.error);
  }
}
