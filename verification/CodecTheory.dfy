/** The wire format loses nothing: parsing undoes serializing, and the other way round. */
module CodecTheory {
  import opened Widths
  import opened Segments
  import opened InternetChecksums
  import opened NetCodec
  import opened SegmentCodec

  // ---------------------------------------------------------------------------
  // Headers
  // ---------------------------------------------------------------------------

  /** The header that a reader of the fixed part sees: the data offset has four bits. */
  function AsRead(h: Header): Header {
    h.(doff := h.doff % 16)
  }

  /** The flags of a number one after the other: each is the parity of what is left after the lower ones. */
  lemma BitSplit(f: nat, weight: nat)
    requires weight == 1 || weight == 2 || weight == 4 || weight == 8 || weight == 16 || weight == 32
    ensures f / weight == 2 * (f / (2 * weight)) + Bit(HasFlag(f, weight), 1)
  {
    assert f / (2 * weight) == f / weight / 2;
  }

  /** Three flags as a number. */
  function Three(x: bool, y: bool, z: bool): (n: nat)
    ensures n < 8
  {
    Bit(x, 4) + Bit(y, 2) + Bit(z, 1)
  }

  lemma FlagsAreThrees(h: Header)
    ensures Flags(h) == 8 * Three(h.urg, h.ack, h.psh) + Three(h.rst, h.syn, h.fin)
  {
  }

  /** Three flags and what lies above them make up the rest of a number. */
  lemma ThreeBits(f: nat, weight: nat)
    requires weight == 1 || weight == 8
    ensures f / weight
         == 8 * (f / (8 * weight)) + Three(HasFlag(f, 4 * weight), HasFlag(f, 2 * weight), HasFlag(f, weight))
  {
    hide HasFlag;
    BitSplit(f, weight);
    BitSplit(f, 2 * weight);
    BitSplit(f, 4 * weight);
  }

  lemma ThreeInjective(x: bool, y: bool, z: bool, x': bool, y': bool, z': bool)
    requires Three(x, y, z) == Three(x', y', z')
    ensures x == x' && y == y' && z == z'
  {
  }

  lemma EightSplit(a: nat, r: nat, b: nat, q: nat)
    requires 8 * a + r == 8 * b + q && r < 8 && q < 8
    ensures a == b && r == q
  {
  }

  lemma FlagsRead(h: Header)
    ensures HasFlag(Flags(h), 32) == h.urg && HasFlag(Flags(h), 16) == h.ack && HasFlag(Flags(h), 8) == h.psh
    ensures HasFlag(Flags(h), 4) == h.rst && HasFlag(Flags(h), 2) == h.syn && HasFlag(Flags(h), 1) == h.fin
  {
    hide Flags, HasFlag, Three;
    var f: nat, high, low := Flags(h), Three(h.urg, h.ack, h.psh), Three(h.rst, h.syn, h.fin);
    FlagsAreThrees(h);
    ThreeBits(f, 1);
    EightSplit(f / 8, Three(HasFlag(f, 4), HasFlag(f, 2), HasFlag(f, 1)), high, low);
    ThreeBits(f, 8);
    EightSplit(f / 64, Three(HasFlag(f, 32), HasFlag(f, 16), HasFlag(f, 8)), 0, high);
    ThreeInjective(HasFlag(f, 4), HasFlag(f, 2), HasFlag(f, 1), h.rst, h.syn, h.fin);
    ThreeInjective(HasFlag(f, 32), HasFlag(f, 16), HasFlag(f, 8), h.urg, h.ack, h.psh);
  }

  lemma Limits()
    ensures Limit(1) == TWO8 && Limit(2) == TWO16 && Limit(4) == TWO32
  {
    assert Limit(3) == TWO8 * TWO16;
  }

  lemma AssembleWritten(h: Header)
    ensures Limit(1) == TWO8 && Limit(2) == TWO16 && Limit(4) == TWO32
    ensures Assemble(h.sport, h.dport, h.seqno, h.ackno, OffsetByte(h), Flags(h), h.win, h.cksum, h.uptr) == AsRead(h)
  {
    hide Flags, HasFlag;
    Limits();
    FlagsRead(h);
  }

  /** Parsing the fixed part of a header recovers every field and leaves what follows it. */
  lemma ParseFixed(h: Header, rest: seq<byte>)
    ensures var p := ParseHeader(Cursor(Fixed(h, rest), NoError));
      && p.header == AsRead(h)
      && p.after == (if h.doff % 16 < 5 then Cursor(rest, NoError)
                     else Cursor(rest, NoError).Skip(4 * (h.doff % 16) - LENGTH))
      && p.result == (if h.doff % 16 < 5 then HeaderTooShort else p.after.error)
  {
    hide Bytes, Flags, OffsetByte, Limit, Assemble, Cursor.Peek, Cursor.Skip;
    AssembleWritten(h);
    var r9 := rest;
    var r8 := Bytes(h.uptr, 2) + r9;
    var r7 := Bytes(h.cksum, 2) + r8;
    var r6 := Bytes(h.win, 2) + r7;
    var r5 := Bytes(Flags(h), 1) + r6;
    var r4 := Bytes(OffsetByte(h), 1) + r5;
    var r3 := Bytes(h.ackno, 4) + r4;
    var r2 := Bytes(h.seqno, 4) + r3;
    var r1 := Bytes(h.dport, 2) + r2;
    PeekWritten(h.sport, 2, r1);
    PeekWritten(h.dport, 2, r2);
    PeekWritten(h.seqno, 4, r3);
    PeekWritten(h.ackno, 4, r4);
    PeekWritten(OffsetByte(h), 1, r5);
    PeekWritten(Flags(h), 1, r6);
    PeekWritten(h.win, 2, r7);
    PeekWritten(h.cksum, 2, r8);
    PeekWritten(h.uptr, 2, r9);
  }

  lemma LayoutAppend(h: Header, offset: byte, flags: byte, a: seq<byte>, b: seq<byte>)
    ensures BeforeChecksum(h, offset, flags, a) == BeforeChecksum(h, offset, flags, []) + a
    ensures Layout(h, offset, flags, a) + b == Layout(h, offset, flags, a + b)
    ensures |BeforeChecksum(h, offset, flags, [])| == 16 && |Layout(h, offset, flags, a)| == LENGTH + |a|
  {
    hide Bytes;
    var tail := Bytes(h.cksum, 2) + (Bytes(h.uptr, 2) + a);
    assert tail + b == Bytes(h.cksum, 2) + (Bytes(h.uptr, 2) + (a + b));
  }

  // ---------------------------------------------------------------------------
  // Where the fields are
  // ---------------------------------------------------------------------------

  /** The byte, the 16-bit and the 32-bit number at `i`, most significant byte first; zero where input is missing. */
  function Octet(b: seq<byte>, i: nat): byte {
    if i < |b| then b[i] else 0
  }

  function Word(b: seq<byte>, i: nat): nat {
    if i + 2 <= |b| then b[i] * TWO8 + b[i + 1] else 0
  }

  function Long(b: seq<byte>, i: nat): nat {
    if i + 4 <= |b| then b[i] * (TWO8 * TWO16) + b[i + 1] * TWO16 + b[i + 2] * TWO8 + b[i + 3] else 0
  }

  /** The header format of section 3.1 of RFC 793, position by position. */
  predicate Formatted(b: seq<byte>, h: Header) {
    && h.sport == Word(b, 0) && h.dport == Word(b, 2)
    && h.seqno == Long(b, 4)
    && h.ackno == Long(b, 8)
    && h.doff == Octet(b, 12) / 16
    && h.urg == (Octet(b, 13) / 32 % 2 == 1) && h.ack == (Octet(b, 13) / 16 % 2 == 1)
    && h.psh == (Octet(b, 13) / 8 % 2 == 1) && h.rst == (Octet(b, 13) / 4 % 2 == 1)
    && h.syn == (Octet(b, 13) / 2 % 2 == 1) && h.fin == (Octet(b, 13) % 2 == 1)
    && h.win == Word(b, 14)
    && h.cksum == Word(b, 16) && h.uptr == Word(b, 18)
  }

  /** The parser stands at position `k`, or has run out of input before. */
  ghost predicate Stands(c: Cursor, b: seq<byte>, k: nat) {
    if k <= |b| then c == Cursor(b[k..], NoError) else c.error == PacketTooShort
  }

  lemma SkipStands(c: Cursor, b: seq<byte>, k: nat, n: nat)
    requires Stands(c, b, k)
    ensures Stands(c.Skip(n), b, k + n)
  {
  }

  lemma PeekOctet(c: Cursor, b: seq<byte>, k: nat)
    requires Stands(c, b, k)
    ensures c.Peek(1) == Octet(b, k)
  {
    if k < |b| {
      PeekByte(c);
    }
  }

  lemma BigEndianWord(x: seq<byte>)
    requires |x| == 2
    ensures BigEndian(x) == x[0] * TWO8 + x[1]
  {
    assert x[..1] == [x[0]] && x[..1][..0] == [];
  }

  lemma PeekWord(c: Cursor, b: seq<byte>, k: nat)
    requires Stands(c, b, k)
    ensures c.Peek(2) == Word(b, k)
  {
    if k + 2 <= |b| {
      BigEndianWord(b[k..][..2]);
    }
  }

  lemma PeekLong(c: Cursor, b: seq<byte>, k: nat)
    requires Stands(c, b, k)
    ensures c.Peek(4) == Long(b, k)
  {
    if k + 4 <= |b| {
      var x := b[k..][..4];
      BigEndianWord(x[..2]);
      assert x[..3][..2] == x[..2] && x[..4][..3] == x[..3] == x[..|x| - 1];
      assert BigEndian(x[..3]) == BigEndian(x[..2]) * TWO8 + x[2];
    }
  }

  /** Every header that is parsed, from any input at all, has its fields where the format puts them. */
  lemma ParseReadsFormat(b: seq<byte>)
    ensures Formatted(b, ParseHeader(Cursor(b, NoError)).header)
  {
    hide Cursor.Peek, Cursor.Skip, Limit, Stands, Octet, Word, Long;
    var c := Cursor(b, NoError);
    assert Stands(c, b, 0) by { StandsAtStart(b); }
    var c1 := c.Skip(2);
    PeekWord(c, b, 0);
    SkipStands(c, b, 0, 2);
    var c2 := c1.Skip(2);
    PeekWord(c1, b, 2);
    SkipStands(c1, b, 2, 2);
    var c3 := c2.Skip(4);
    PeekLong(c2, b, 4);
    SkipStands(c2, b, 4, 4);
    var c4 := c3.Skip(4);
    PeekLong(c3, b, 8);
    SkipStands(c3, b, 8, 4);
    var c5 := c4.Skip(1);
    PeekOctet(c4, b, 12);
    SkipStands(c4, b, 12, 1);
    var c6 := c5.Skip(1);
    PeekOctet(c5, b, 13);
    SkipStands(c5, b, 13, 1);
    var c7 := c6.Skip(2);
    PeekWord(c6, b, 14);
    SkipStands(c6, b, 14, 2);
    var c8 := c7.Skip(2);
    PeekWord(c7, b, 16);
    SkipStands(c7, b, 16, 2);
    PeekWord(c8, b, 18);
  }

  lemma StandsAtStart(b: seq<byte>)
    ensures Stands(Cursor(b, NoError), b, 0)
  {
  }

  lemma FixedHasFormat(h: Header, rest: seq<byte>)
    ensures Formatted(Fixed(h, rest), AsRead(h))
  {
    hide Fixed, Formatted, ParseHeader;
    ParseFixed(h, rest);
    ParseReadsFormat(Fixed(h, rest));
  }

  /** A serialized header has the format, its advertised length, and zeros for reserved bits and options. A data offset
      above 15 is cut to four bits. */
  lemma SerializeWritesFormat(h: Header)
    ensures SerializeHeader(h).Some? <==> h.doff >= 5
    ensures h.doff >= 5 ==>
      var b := SerializeHeader(h).value;
      && |b| == 4 * h.doff && Formatted(b, h.(doff := h.doff % 16))
      && b[12] % 16 == 0 && b[13] < 64 && forall i :: LENGTH <= i < |b| ==> b[i] == 0
  {
    hide Layout, Formatted, Flags;
    if h.doff >= 5 {
      var zeros := Zeros(4 * h.doff - LENGTH);
      FixedHasFormat(h, zeros);
      LayoutBytes(h, OffsetByte(h), Flags(h), zeros);
      LayoutAppend(h, OffsetByte(h), Flags(h), zeros, []);
      var b := SerializeHeader(h).value;
      assert forall i :: LENGTH <= i < |b| ==> b[i] == b[LENGTH..][i - LENGTH];
    }
  }

  // ---------------------------------------------------------------------------
  // Checksums
  // ---------------------------------------------------------------------------

  /** The checksum field counts in full: it sits on an even offset. */
  lemma FieldInSum(h: Header, offset: byte, flags: byte, rest: seq<byte>)
    ensures WordSum(Layout(h, offset, flags, rest), false)
         == WordSum(Layout(h.(cksum := 0), offset, flags, rest), false) + h.cksum
  {
    var h0, tail := h.(cksum := 0), Bytes(h.uptr, 2) + rest;
    var front := BeforeChecksum(h, offset, flags, []);
    WordSumBytes2(h.cksum);
    WordSumBytes2(0);
    hide Bytes, WordSum;
    LayoutAppend(h, offset, flags, Bytes(h.cksum, 2) + tail, []);
    LayoutAppend(h0, offset, flags, Bytes(0, 2) + tail, []);
    WordSumConcat(front, Bytes(h.cksum, 2) + tail, false);
    WordSumConcat(front, Bytes(0, 2) + tail, false);
    WordSumConcat(Bytes(h.cksum, 2), tail, false);
    WordSumConcat(Bytes(0, 2), tail, false);
  }

  lemma WordSumBytes2(v: uint16)
    ensures WordSum(Bytes(v, 2), false) == v
  {
    assert Bytes(v, 2) == [v / TWO8, v % TWO8];
    assert WordSum([v % TWO8], true) == v % TWO8;
    assert [v / TWO8, v % TWO8][1..] == [v % TWO8];
  }

  /** The 32-bit sum over a segment whose checksum field is taken to be zero. */
  function BareSum(h: Header, offset: byte, flags: byte, rest: seq<byte>, pseudo: uint32): uint32 {
    (pseudo + WordSum(Layout(h.(cksum := 0), offset, flags, rest), false)) % TWO32
  }

  lemma BareSumIgnoresField(h: Header, c: uint16, offset: byte, flags: byte, rest: seq<byte>, pseudo: uint32)
    ensures BareSum(h.(cksum := c), offset, flags, rest, pseudo) == BareSum(h, offset, flags, rest, pseudo)
  {
    assert h.(cksum := c).(cksum := 0) == h.(cksum := 0);
  }

  lemma ReceivedSum(h: Header, offset: byte, flags: byte, rest: seq<byte>, pseudo: uint32)
    ensures Checksum(pseudo, false).Add(Layout(h, offset, flags, rest)).sum
         == (BareSum(h, offset, flags, rest, pseudo) + h.cksum) % TWO32
  {
    hide Layout, WordSum;
    FieldInSum(h, offset, flags, rest);
    AddInside(pseudo, WordSum(Layout(h.(cksum := 0), offset, flags, rest), false), h.cksum);
  }

  lemma SegmentChecksumIs(seg: Segment, pseudo: uint32)
    requires seg.header.doff >= 5
    ensures var h := seg.header;
      SegmentChecksum(seg, pseudo)
        == 65535 - Folded(BareSum(h, OffsetByte(h), Flags(h), Zeros(4 * h.doff - LENGTH) + seg.payload, pseudo))
  {
    hide Layout, WordSum, Folded, OffsetByte, Flags;
    var h, zeros := seg.header.(cksum := 0), Zeros(4 * seg.header.doff - LENGTH);
    assert OffsetByte(h) == OffsetByte(seg.header) && Flags(h) == Flags(seg.header) by { SameBytes(seg.header, 0); }
    LayoutAppend(h, OffsetByte(h), Flags(h), zeros, seg.payload);
    var head := Fixed(h, zeros);
    WordSumConcat(head, seg.payload, false);
    AddInside(pseudo, WordSum(head, false), WordSum(seg.payload, false));
  }

  lemma SameBytes(h: Header, c: uint16)
    ensures OffsetByte(h.(cksum := c)) == OffsetByte(h) && Flags(h.(cksum := c)) == Flags(h)
  {
  }

  // ---------------------------------------------------------------------------
  // Serialize, then parse
  // ---------------------------------------------------------------------------

  /** What comes out is accepted, whatever the pseudo-header sum and however long the segment. */
  lemma SerializeThenParse(seg: Segment, pseudo: uint32)
    requires seg.header.doff >= 5
    ensures var h, c := seg.header, SegmentChecksum(seg, pseudo);
      var p := ParseHeader(Cursor(SerializeSegment(seg, pseudo).value, NoError));
      && SerializeSegment(seg, pseudo).Some?
      && SerializeSegment(seg, pseudo).value == Fixed(h.(cksum := c), Zeros(4 * h.doff - LENGTH) + seg.payload)
      && ParseSegment(SerializeSegment(seg, pseudo).value, pseudo)
         == Parsed(Segment(p.header, p.after.rest), p.after.error)
  {
    hide Layout, BareSum, Folded, SegmentChecksum, ParseHeader;
    var h, c := seg.header, SegmentChecksum(seg, pseudo);
    var rest := Zeros(4 * h.doff - LENGTH) + seg.payload;
    LayoutAppend(h.(cksum := c), OffsetByte(h), Flags(h), Zeros(4 * h.doff - LENGTH), seg.payload);
    SegmentChecksumIs(seg, pseudo);
    ReceivedSum(h.(cksum := c), OffsetByte(h), Flags(h), rest, pseudo);
    BareSumIgnoresField(h, c, OffsetByte(h), Flags(h), rest, pseudo);
    ChecksumCancels(BareSum(h, OffsetByte(h), Flags(h), rest, pseudo));
  }

  /** The segment arrives as it was sent, apart from the checksum field, which is filled in. */
  ghost predicate Survives(seg: Segment, pseudo: uint32) {
    && SerializeSegment(seg, pseudo).Some?
    && ParseSegment(SerializeSegment(seg, pseudo).value, pseudo)
       == Parsed(seg.(header := seg.header.(cksum := SegmentChecksum(seg, pseudo))), NoError)
  }

  /** A segment survives the wire exactly when its data offset is one that the format can express. */
  lemma RoundTrip(seg: Segment, pseudo: uint32)
    ensures Survives(seg, pseudo) <==> 5 <= seg.header.doff <= 15
  {
    hide Fixed, ParseHeader, SegmentChecksum, ParseSegment;
    if seg.header.doff >= 5 {
      SerializeThenParse(seg, pseudo);
      hide SerializeSegment;
      var h := seg.header.(cksum := SegmentChecksum(seg, pseudo));
      var zeros := Zeros(4 * h.doff - LENGTH);
      ParseFixed(h, zeros + seg.payload);
      if h.doff <= 15 {
        assert (zeros + seg.payload)[4 * h.doff - LENGTH..] == seg.payload;
      }
    }
  }

  // ---------------------------------------------------------------------------
  // Parse, then serialize
  // ---------------------------------------------------------------------------

  /** Twenty bytes or more are the layout of the header read from them, with its actual offset and flag bytes. */
  lemma LayoutOfParsed(b: seq<byte>)
    requires |b| >= LENGTH
    ensures var p := ParseHeader(Cursor(b, NoError));
      && b == Layout(p.header, b[12], b[13], b[LENGTH..])
      && p.header.doff == b[12] / 16
      && Flags(p.header) == b[13] % 64
      && p.after == (if b[12] / 16 < 5 then Cursor(b[LENGTH..], NoError)
                     else Cursor(b[LENGTH..], NoError).Skip(4 * (b[12] / 16) - LENGTH))
      && p.result == (if b[12] / 16 < 5 then HeaderTooShort else p.after.error)
  {
    hide Bytes, Limit, Flags, HasFlag, Cursor.Peek, Cursor.Skip;
    var c := Cursor(b, NoError);
    WritePeeked(c, 2);
    var c1 := c.Skip(2);
    WritePeeked(c1, 2);
    var c2 := c1.Skip(2);
    WritePeeked(c2, 4);
    var c3 := c2.Skip(4);
    WritePeeked(c3, 4);
    var c4 := c3.Skip(4);
    WritePeeked(c4, 1);
    PeekByte(c4);
    var c5 := c4.Skip(1);
    WritePeeked(c5, 1);
    PeekByte(c5);
    var c6 := c5.Skip(1);
    WritePeeked(c6, 2);
    var c7 := c6.Skip(2);
    WritePeeked(c7, 2);
    var c8 := c7.Skip(2);
    WritePeeked(c8, 2);
    assert c8.Skip(2).rest == b[LENGTH..];
    FlagsOf(b[13], ParseHeader(c).header);
  }

  lemma PeekByte(c: Cursor)
    requires c.error == NoError && |c.rest| >= 1
    ensures c.Peek(1) == c.rest[0]
  {
    assert BigEndian(c.rest[..1][..0]) == 0;
  }

  lemma FlagsOf(f: byte, h: Header)
    requires HasFlag(f, 32) == h.urg && HasFlag(f, 16) == h.ack && HasFlag(f, 8) == h.psh
    requires HasFlag(f, 4) == h.rst && HasFlag(f, 2) == h.syn && HasFlag(f, 1) == h.fin
    ensures Flags(h) == f % 64
  {
    hide HasFlag, Flags, Three;
    ThreeBits(f, 1);
    ThreeBits(f, 8);
    FlagsAreThrees(h);
    TwoHalves(f, f / 8, f / 64, Three(h.urg, h.ack, h.psh), Three(h.rst, h.syn, h.fin));
  }

  lemma TwoHalves(f: nat, f8: nat, f64: nat, high: nat, low: nat)
    requires f == 8 * f8 + low && f8 == 8 * f64 + high && high < 8 && low < 8
    ensures f % 64 == 8 * high + low
  {
  }

  lemma LayoutBytes(h: Header, offset: byte, flags: byte, rest: seq<byte>)
    ensures var b := Layout(h, offset, flags, rest);
      |b| >= LENGTH && b[12] == offset && b[13] == flags && b[LENGTH..] == rest
  {
    assert Bytes(offset, 1) == [offset] && Bytes(flags, 1) == [flags];
    hide Bytes;
    LayoutAppend(h, offset, flags, rest, []);
  }

  /** Fewer than twenty bytes always leave an error in the parser. */
  lemma ShortInput(b: seq<byte>)
    requires |b| < LENGTH
    ensures ParseHeader(Cursor(b, NoError)).after.error == PacketTooShort
    ensures ParseHeader(Cursor(b, NoError)).result != NoError
  {
    hide Cursor.Peek, Assemble;
    var c := Cursor(b, NoError).Skip(2).Skip(2).Skip(4).Skip(4);
    assert c.error == PacketTooShort || (c.error == NoError && |c.rest| < LENGTH - 12);
    var c9 := c.Skip(1).Skip(1).Skip(2).Skip(2).Skip(2);
    assert c9.error == PacketTooShort;
  }

  /** Exactly these inputs are accepted. In particular a data offset below the minimum is accepted. */
  lemma Accepts(b: seq<byte>, pseudo: uint32)
    ensures ParseSegment(b, pseudo).Parsed? && ParseSegment(b, pseudo).result == NoError
       <==> && Checksum(pseudo, false).Add(b).Value() == 0
            && |b| >= LENGTH
            && (b[12] / 16 < 5 || 4 * (b[12] / 16) <= |b|)
    ensures ParseHeader(Cursor(b, NoError)).result == NoError
       <==> |b| >= LENGTH && 5 <= b[12] / 16 && 4 * (b[12] / 16) <= |b|
  {
    if |b| < LENGTH {
      ShortInput(b);
    } else {
      LayoutOfParsed(b);
    }
    hide Layout, Checksum.Add, Checksum.Value;
  }

  /** On the wire a segment is its header, with the checksum filled in, and then its payload. */
  lemma SegmentFormat(seg: Segment, pseudo: uint32)
    requires seg.header.doff >= 5
    ensures SerializeSegment(seg, pseudo).Some?
    ensures var b, h := SerializeSegment(seg, pseudo).value, seg.header.(cksum := SegmentChecksum(seg, pseudo));
      && |b| == 4 * h.doff + |seg.payload| && b[4 * h.doff..] == seg.payload
      && Formatted(b[..4 * h.doff], h.(doff := h.doff % 16)) && Checksum(pseudo, false).Add(b).Value() == 0
  {
    SerializeThenParse(seg, pseudo);
    hide SegmentChecksum, Formatted, ParseHeader, SerializeHeader, Checksum.Add, Checksum.Value;
    var h := seg.header.(cksum := SegmentChecksum(seg, pseudo));
    SerializeWritesFormat(h);
    var b, head := SerializeSegment(seg, pseudo).value, SerializeHeader(h).value;
    assert b[..4 * h.doff] == head && b[4 * h.doff..] == seg.payload;
  }

  /** An accepted segment is the header at the front of the input and, as payload, what follows that header. */
  lemma AcceptedFormat(b: seq<byte>, pseudo: uint32)
    requires ParseSegment(b, pseudo).Parsed? && ParseSegment(b, pseudo).result == NoError
    ensures var seg := ParseSegment(b, pseudo).segment;
      && Formatted(b, seg.header)
      && Max(LENGTH, 4 * seg.header.doff) <= |b| && seg.payload == b[Max(LENGTH, 4 * seg.header.doff)..]
  {
    hide Layout, Formatted, ParseHeader, Flags;
    ParseReadsFormat(b);
    Accepts(b, pseudo);
    LayoutOfParsed(b);
  }

  /** Changing one byte changes the sum by its difference, weighted by its place in its word. */
  lemma {:induction false} WordSumUpdate(b: seq<byte>, i: nat, y: byte, odd: bool)
    requires i < |b|
    ensures WordSum(b[i := y], odd) - WordSum(b, odd)
         == if odd == (i % 2 == 0) then y - b[i] else (y - b[i]) * TWO8
    decreases i
  {
    if i == 0 {
      assert b[0 := y][1..] == b[1..];
    } else {
      WordSumUpdate(b[1..], i - 1, y, !odd);
      assert b[i := y][1..] == b[1..][i - 1 := y];
    }
  }

  /** Of two sums that differ by less than 65535, modulo 2^32, at most one has checksum zero. */
  lemma OneSumCancels(total: nat, d: int)
    requires -65535 < d < 65535 && d != 0 && total + d >= 0
    requires Folded(total % TWO32) == 65535
    ensures Folded((total + d) % TWO32) != 65535
  {
    var q := (total % TWO32 - 1) / 65535;
    assert total % TWO32 == 65535 * (q + 1);
    var x := total % TWO32 + d;
    assert (total + d) % TWO32 == if x < TWO32 then x else x - TWO32;
    if x < TWO32 {
      assert x - 1 == 65535 * q + (d + 65534);
      SameRemainder(d + 65534, q);
    }
  }

  /** The checksum covers every byte: an accepted input with any one byte changed is refused. */
  lemma DetectsByteErrors(b: seq<byte>, pseudo: uint32, i: nat, y: byte)
    requires ParseSegment(b, pseudo).Parsed? && i < |b| && y != b[i]
    ensures ParseSegment(b[i := y], pseudo) == Refused
  {
    hide ParseHeader, WordSum, Folded;
    WordSumUpdate(b, i, y, false);
    OneSumCancels(pseudo + WordSum(b, false), WordSum(b[i := y], false) - WordSum(b, false));
  }

  lemma {:induction false} WordSumZeros(n: nat, odd: bool)
    ensures WordSum(Zeros(n), odd) == 0
  {
    if n > 0 {
      WordSumZeros(n - 1, !odd);
      assert Zeros(n)[1..] == Zeros(n - 1);
    }
  }

  /** Twenty zero bytes are accepted as a segment, although their data offset is zero; what was parsed from
      them cannot be serialized again. */
  lemma ShortOffsetAccepted()
    ensures var r := ParseSegment(Zeros(LENGTH), 65535);
      r.Parsed? && r.result == NoError && r.segment.header.doff == 0 && SerializeSegment(r.segment, 65535) == None
    ensures ParseHeader(Cursor(Zeros(LENGTH), NoError)).result == HeaderTooShort
  {
    hide Layout, WordSum, ParseHeader, Flags;
    WordSumZeros(LENGTH, false);
    LayoutOfParsed(Zeros(LENGTH));
  }

  /** Reserved bits and option bytes are zero, and the checksum field is not the other form of zero. */
  ghost predicate Canonical(b: seq<byte>, h: Header, pseudo: uint32) {
    && LENGTH <= 4 * h.doff <= |b|
    && b[12] % 16 == 0 && b[13] < 64
    && b[LENGTH..4 * h.doff] == Zeros(4 * h.doff - LENGTH)
    && (h.cksum != 65535 || BareSum(h, b[12], b[13], b[LENGTH..], pseudo) == 0)
  }

  lemma ParsedShape(b: seq<byte>, pseudo: uint32)
    requires ParseSegment(b, pseudo).Parsed? && ParseSegment(b, pseudo).result == NoError
    requires ParseSegment(b, pseudo).segment.header.doff >= 5
    ensures var seg := ParseSegment(b, pseudo).segment;
      var h := seg.header;
      && LENGTH <= 4 * h.doff <= |b|
      && b == Layout(h, b[12], b[13], b[LENGTH..]) && h.doff == b[12] / 16 && Flags(h) == b[13] % 64
      && b[LENGTH..] == b[LENGTH..4 * h.doff] + seg.payload
      && Folded((BareSum(h, b[12], b[13], b[LENGTH..], pseudo) + h.cksum) % TWO32) == 65535
  {
    hide Layout, BareSum, Flags, ParseHeader, WordSum, Folded;
    Accepts(b, pseudo);
    LayoutOfParsed(b);
    var h := ParseSegment(b, pseudo).segment.header;
    ReceivedSum(h, b[12], b[13], b[LENGTH..], pseudo);
  }

  /** An accepted byte string with a proper data offset is reproduced exactly when it is canonical. */
  lemma ParseThenSerialize(b: seq<byte>, pseudo: uint32)
    requires ParseSegment(b, pseudo).Parsed? && ParseSegment(b, pseudo).result == NoError
    requires ParseSegment(b, pseudo).segment.header.doff >= 5
    ensures var seg := ParseSegment(b, pseudo).segment;
      SerializeSegment(seg, pseudo) == Some(b) <==> Canonical(b, seg.header, pseudo)
  {
    hide Layout, BareSum, Flags, ParseHeader, ParseSegment, SerializeSegment, SegmentChecksum, Folded;
    var seg := ParseSegment(b, pseudo).segment;
    var h, c := seg.header, SegmentChecksum(seg, pseudo);
    var zeros := Zeros(4 * h.doff - LENGTH);
    ParsedShape(b, pseudo);
    SegmentChecksumIs(seg, pseudo);
    SerializeThenParse(seg, pseudo);
    SameBytes(h, c);
    var bare := BareSum(h, b[12], b[13], b[LENGTH..], pseudo);
    if Canonical(b, h, pseudo) {
      CancelsUniquely(bare, h.cksum);
      FoldedZero(bare);
      assert h.(cksum := c) == h;
    }
    if SerializeSegment(seg, pseudo) == Some(b) {
      LayoutBytes(h.(cksum := c), OffsetByte(h), Flags(h), zeros + seg.payload);
      ParseFixed(h.(cksum := c), zeros + seg.payload);
      assert h.cksum == c;
      FoldedZero(bare);
    }
  }

  lemma FoldedZero(n: nat)
    ensures Folded(n) == 0 <==> n == 0
  {
  }
}
