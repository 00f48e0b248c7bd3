/** What every reachable sender keeps: the queue of outstanding segments tiles the unacknowledged
    sequence numbers, and every segment ever sent carries a true piece of the stream. */
module SenderInvariant {
  import opened Widths
  import opened WrappingIntegers
  import opened Segments
  import opened Sending

  /** The bytes that have been put into segments. */
  function Sent(s: Sender): seq<byte>
    requires s.stream.Valid()
  {
    s.stream.data[..s.stream.nread]
  }

  /** `seg` starts at absolute sequence number `lo`: it is the SYN, or it is empty, or it carries the bytes
      of `sent` from there on, and a FIN only at the very end of a stream that is final. */
  ghost predicate Carries(seg: Segment, isn: uint32, sent: seq<byte>, final: bool, lo: nat) {
    && seg.header.seqno == Wrap(lo, isn)
    && seg.header.doff == 5
    && if seg.header.syn then lo == 0 && seg.payload == [] && !seg.header.fin
       else seg.Length() > 0 ==>
         && 1 <= lo && lo - 1 + |seg.payload| <= |sent|
         && seg.payload == sent[lo - 1..lo - 1 + |seg.payload|]
         && (seg.header.fin ==> final && lo - 1 + |seg.payload| == |sent|)
  }

  /** `seg` carries what the sender has put at `lo`, and nothing from beyond its next sequence number. */
  ghost predicate SentAt(seg: Segment, s: Sender, lo: nat)
    requires s.stream.Valid()
  {
    Carries(seg, s.isn, Sent(s), s.finSent, lo) && lo + seg.Length() <= s.next
  }

  ghost predicate Genuine(seg: Segment, s: Sender)
    requires s.stream.Valid()
  {
    exists lo: nat :: SentAt(seg, s, lo)
  }

  /** Non-empty segments that follow one another from `lo` up to `hi` without gap or overlap. */
  ghost predicate Tiled(segs: seq<Segment>, isn: uint32, sent: seq<byte>, final: bool, lo: nat, hi: nat) {
    if segs == [] then lo == hi else
    && segs[0].Length() > 0
    && Carries(segs[0], isn, sent, final, lo)
    && Tiled(segs[1..], isn, sent, final, lo + segs[0].Length(), hi)
  }

  /** The number of sequence numbers that the segments occupy. */
  function Span(segs: seq<Segment>): nat {
    if segs == [] then 0 else segs[0].Length() + Span(segs[1..])
  }

  /** The next sequence number counts the SYN, the bytes sent and the FIN. */
  predicate Counted(s: Sender)
    requires s.stream.Valid()
  {
    && s.next == (if s.next == 0 then 0 else 1) + s.stream.nread + (if s.finSent then 1 else 0)
    && (s.finSent ==> s.stream.Eof())
  }

  ghost predicate Coherent(s: Sender) {
    && s.Valid()
    && Counted(s)
    && Tiled(s.outstanding, s.isn, Sent(s), s.finSent, s.acked, s.next)
    && (forall seg :: seg in s.out ==> Genuine(seg, s))
    && (s.outstanding == [] ==> s.retransmissions == 0)
  }

  lemma CoherentIsValid(s: Sender)
    requires Coherent(s)
    ensures s.Valid() && Tiled(s.outstanding, s.isn, Sent(s), s.finSent, s.acked, s.next)
    ensures s.outstanding == [] ==> s.retransmissions == 0
  {
  }

  // ---------------------------------------------------------------------------
  // Tilings
  // ---------------------------------------------------------------------------

  /** The stream grows at its end only, and not at all once it is final. */
  predicate Grows(sent: seq<byte>, final: bool, sent': seq<byte>, final': bool) {
    sent <= sent' && (final ==> final' && sent == sent')
  }

  lemma {:induction false} TiledSpan(segs: seq<Segment>, isn: uint32, sent: seq<byte>, final: bool, lo: nat, hi: nat)
    requires Tiled(segs, isn, sent, final, lo, hi)
    ensures hi - lo == Span(segs) && (segs == [] <==> lo == hi)
  {
    hide Carries;
    if segs != [] {
      TiledSpan(segs[1..], isn, sent, final, lo + segs[0].Length(), hi);
    }
  }

  lemma {:induction false} TiledGrows(segs: seq<Segment>, isn: uint32, lo: nat, hi: nat,
      sent: seq<byte>, final: bool, sent': seq<byte>, final': bool)
    requires Tiled(segs, isn, sent, final, lo, hi) && Grows(sent, final, sent', final')
    ensures Tiled(segs, isn, sent', final', lo, hi)
  {
    if segs != [] {
      TiledGrows(segs[1..], isn, lo + segs[0].Length(), hi, sent, final, sent', final');
    }
  }

  lemma {:induction false} TiledAppend(segs: seq<Segment>, seg: Segment, isn: uint32, sent: seq<byte>, final: bool,
      lo: nat, mid: nat)
    requires Tiled(segs, isn, sent, final, lo, mid)
    requires seg.Length() > 0 && Carries(seg, isn, sent, final, mid)
    ensures Tiled(segs + [seg], isn, sent, final, lo, mid + seg.Length())
  {
    hide Carries;
    if segs == [] {
      assert (segs + [seg])[1..] == [];
    } else {
      TiledAppend(segs[1..], seg, isn, sent, final, lo + segs[0].Length(), mid);
      assert (segs + [seg])[1..] == segs[1..] + [seg];
    }
  }

  lemma GenuineGrows(seg: Segment, s: Sender, t: Sender)
    requires s.stream.Valid() && t.stream.Valid() && s.isn == t.isn && s.next <= t.next
    requires Genuine(seg, s) && Grows(Sent(s), s.finSent, Sent(t), t.finSent)
    ensures Genuine(seg, t)
  {
    var lo: nat :| SentAt(seg, s, lo);
    assert SentAt(seg, t, lo);
  }

  // ---------------------------------------------------------------------------
  // Every operation keeps a sender coherent
  // ---------------------------------------------------------------------------

  lemma ClosedIsCoherent(isn: uint32, capacity: nat, timeout: uint16)
    ensures Coherent(Closed(isn, capacity, timeout))
  {
  }

  /** The new segment starts where the sent bytes ended. */
  lemma SendOneCarries(s: Sender)
    requires s.Valid() && Counted(s) && !s.Stuck()
    ensures var t := s.SendOne();
      && Grows(Sent(s), s.finSent, Sent(t), t.finSent)
      && t.out[|s.out|].Length() > 0
      && Carries(t.out[|s.out|], t.isn, Sent(t), t.finSent, s.next)
      && t.next == s.next + t.out[|s.out|].Length()
  {
    assert s.next == 0 ==> Wrap(s.next, s.isn) == s.isn;
  }

  /** Sending one segment keeps the tiling. */
  lemma SendOneCoherent(s: Sender)
    requires Coherent(s) && !s.Stuck()
    ensures Coherent(s.SendOne())
  {
    hide Wrap, Carries;
    var t := s.SendOne();
    var seg := t.out[|s.out|];
    SendOneCarries(s);
    TiledGrows(s.outstanding, s.isn, s.acked, s.next, Sent(s), s.finSent, Sent(t), t.finSent);
    TiledAppend(s.outstanding, seg, s.isn, Sent(t), t.finSent, s.acked, s.next);
    assert SentAt(seg, t, s.next);
    forall x | x in t.out
      ensures Genuine(x, t)
    {
      if x in s.out {
        GenuineGrows(x, s, t);
      }
    }
  }

  lemma {:induction false} FillWindowCoherent(s: Sender)
    requires Coherent(s)
    ensures Coherent(s.FillWindow())
    decreases s.Work()
  {
    if !s.Stuck() {
      SendOneCoherent(s);
      s.SendOneReducesWork();
      if s.SendOne().WindowOpen() {
        FillWindowCoherent(s.SendOne());
      }
    }
  }

  lemma WriteCoherent(s: Sender, data: seq<byte>)
    requires Coherent(s) && !s.stream.ended
    ensures Coherent(s.Write(data))
  {
    var t := s.Write(data);
    assert Sent(t) == Sent(s);
    forall x | x in t.out
      ensures Genuine(x, t)
    {
      GenuineGrows(x, s, t);
    }
  }

  lemma EndInputCoherent(s: Sender)
    requires Coherent(s)
    ensures Coherent(s.EndInput())
  {
    forall x | x in s.out
      ensures Genuine(x, s.EndInput())
    {
      GenuineGrows(x, s, s.EndInput());
    }
  }

  lemma SendEmptyCoherent(s: Sender)
    requires Coherent(s)
    ensures Coherent(s.SendEmptySegment())
  {
    var t := s.SendEmptySegment();
    assert SentAt(t.out[|s.out|], t, t.next);
    forall x | x in t.out
      ensures Genuine(x, t)
    {
      if x in s.out {
        GenuineGrows(x, s, t);
      }
    }
  }

  /** A tick sends nothing but, possibly, the oldest outstanding segment once more. */
  lemma TickCoherent(s: Sender, ms: uint64)
    requires Coherent(s)
    ensures Coherent(s.Tick(ms))
    ensures s.Tick(ms).out == s.out || (s.outstanding != [] && s.Tick(ms).out == s.out + [s.outstanding[0]])
  {
    var t := s.Tick(ms);
    if s.outstanding != [] {
      TiledSpan(s.outstanding, s.isn, Sent(s), s.finSent, s.acked, s.next);
      assert SentAt(s.outstanding[0], t, s.acked);
    }
    forall x | x in t.out
      ensures Genuine(x, t)
    {
      if x in s.out {
        GenuineGrows(x, s, t);
      }
    }
  }

  lemma EndOfFront(segs: seq<Segment>, isn: uint32, sent: seq<byte>, final: bool, lo: nat, hi: nat)
    requires segs != [] && Tiled(segs, isn, sent, final, lo, hi) && hi - lo <= TWO31 && hi < TWO63
    ensures EndOf(segs[0], isn, hi) == lo + segs[0].Length() <= hi
  {
    hide Wrap, Unwrap;
    TiledSpan(segs, isn, sent, final, lo, hi);
    UnwrapWrap(lo, isn, hi);
  }

  /** On a tiling of at most 2^31 sequence numbers, exactly the segments that `ackno` covers are counted. */
  lemma {:induction false} CountAckedTiled(segs: seq<Segment>, isn: uint32, sent: seq<byte>, final: bool,
      lo: nat, hi: nat, ackno: nat)
    requires Tiled(segs, isn, sent, final, lo, hi) && hi - lo <= TWO31 && hi < TWO63
    ensures var k := CountAcked(segs, isn, hi, ackno);
      && Tiled(segs[k..], isn, sent, final, lo + Span(segs[..k]), hi)
      && (k > 0 ==> EndOf(segs[k - 1], isn, hi) == lo + Span(segs[..k]) <= ackno)
      && (k < |segs| ==> ackno < lo + Span(segs[..k]) + segs[k].Length())
  {
    hide EndOf, Carries;
    if segs != [] {
      var next := lo + segs[0].Length();
      EndOfFront(segs, isn, sent, final, lo, hi);
      if EndOf(segs[0], isn, hi) <= ackno {
        CountAckedTiled(segs[1..], isn, sent, final, next, hi, ackno);
        var j := CountAcked(segs[1..], isn, hi, ackno);
        assert segs[..j + 1][1..] == segs[1..][..j];
      }
    }
  }

  lemma SpanNone(segs: seq<Segment>)
    ensures Span(segs[..0]) == 0
  {
  }

  /** What an acknowledgment within range leaves, whatever the queue holds. */
  lemma AckShape(s: Sender, ackno: uint32, win: uint16)
    requires s.Valid() && s.next < TWO64
    ensures var t, a := s.AckReceived(ackno, win), Unwrap(ackno, s.isn, s.next);
      if s.acked <= a <= s.next then
        var k := CountAcked(s.outstanding, s.isn, s.next, a);
        && t.outstanding == s.outstanding[k..] && t.window == win
        && t.acked == if k == 0 then s.acked else EndOf(s.outstanding[k - 1], s.isn, s.next)
      else t == s
  {
    hide Unwrap, EndOf, CountAcked;
  }

  /** The first `k` segments are gone, they are covered up to `a` entirely, and the next one is not. */
  predicate PopsCovered(s: Sender, t: Sender, a: nat, k: nat) {
    && k <= |s.outstanding| && t.outstanding == s.outstanding[k..]
    && t.acked == s.acked + Span(s.outstanding[..k]) <= a
    && (k < |s.outstanding| ==> a < t.acked + s.outstanding[k].Length())
  }

  /** An acknowledgment within range pops exactly the segments it covers entirely; any other is ignored. */
  lemma AckPopsCoveredPrefix(s: Sender, ackno: uint32, win: uint16)
    requires Coherent(s) && s.InFlight() <= TWO31 && s.next < TWO63
    ensures var t, a := s.AckReceived(ackno, win), Unwrap(ackno, s.isn, s.next);
      if s.acked <= a <= s.next then
        t.window == win && exists k :: PopsCovered(s, t, a, k)
      else t == s
  {
    hide Coherent, Genuine, Unwrap, EndOf, Tiled, Span, CountAcked, Sent, Sender.AckReceived;
    CoherentIsValid(s);
    AckShape(s, ackno, win);
    assert Span(s.outstanding[..0]) == 0 by { SpanNone(s.outstanding); }
    var t, a := s.AckReceived(ackno, win), Unwrap(ackno, s.isn, s.next);
    if s.acked <= a <= s.next {
      CountAckedTiled(s.outstanding, s.isn, Sent(s), s.finSent, s.acked, s.next, a);
      var k := CountAcked(s.outstanding, s.isn, s.next, a);
      assert PopsCovered(s, t, a, k);
    }
  }

  // ---------------------------------------------------------------------------
  // Acknowledgments with more than half of the sequence numbers in flight
  // ---------------------------------------------------------------------------

  /** The oldest segment is read back at its true place, or so far ahead that no acknowledgment covers it. */
  predicate AcksAreSafe(s: Sender)
    requires s.acked <= s.next < TWO64
  {
    s.InFlight() <= TWO31 || s.outstanding == [] || EndOf(s.outstanding[0], s.isn, s.next) > s.next
  }

  /** With more than half of the sequence numbers in flight, an acknowledgment that is safe removes nothing;
      it takes over the window if it is in range. */
  lemma NothingPopsBeyondHalf(s: Sender, ackno: uint32, win: uint16)
    requires Coherent(s) && TWO31 < s.InFlight() && s.next < TWO62 && AcksAreSafe(s)
    ensures s.AckReceived(ackno, win)
         == if s.acked <= Unwrap(ackno, s.isn, s.next) <= s.next then s.(window := win) else s
  {
    hide Unwrap, EndOf, Carries;
    TiledSpan(s.outstanding, s.isn, Sent(s), s.finSent, s.acked, s.next);
  }

  lemma SameSequenceNumber(n: nat, isn: uint32)
    ensures Wrap(n + TWO32, isn) == Wrap(n, isn)
  {
    WrapCongruence(n + TWO32, n, isn);
    assert TurnsApart(n + TWO32, n, 1);
  }

  /** Within one turn the oldest segment is taken for one of the next turn, which is safe. */
  lemma SafeWithinOneTurn(s: Sender)
    requires Coherent(s) && s.InFlight() <= TWO32 && s.next < TWO62
    ensures AcksAreSafe(s)
  {
    hide Unwrap, Wrap, EndOf, Carries;
    if s.InFlight() > TWO31 && s.outstanding != [] {
      SameSequenceNumber(s.acked, s.isn);
      UnwrapWrap(s.acked + TWO32, s.isn, s.next);
      FrontMisread(s, s.acked + TWO32);
    }
  }

  /** How far back from the next sequence number the oldest segment is read: what is in flight, less whole turns. */
  function ReadBack(inFlight: nat): int {
    inFlight - (inFlight + TWO31 - 1) / TWO32 * TWO32
  }

  /** Safety in terms of counters: beyond half a turn, the oldest segment is longer than it is read back. */
  lemma SafeExactly(s: Sender)
    requires Coherent(s) && s.next < TWO62 && s.outstanding != []
    ensures AcksAreSafe(s) <==> s.InFlight() <= TWO31 || s.outstanding[0].Length() > ReadBack(s.InFlight())
  {
    hide Wrap, Unwrap, EndOf, Tiled;
    var k := (s.InFlight() + TWO31 - 1) / TWO32;
    var m := s.acked + k * TWO32;
    assert TurnsApart(m, s.acked, k);
    WrapCongruence(m, s.acked, s.isn);
    UnwrapWrap(m, s.isn, s.next);
    FrontMisread(s, m);
  }

  lemma AckCoherent(s: Sender, ackno: uint32, win: uint16)
    requires Coherent(s) && s.next < TWO62 && AcksAreSafe(s)
    ensures Coherent(s.AckReceived(ackno, win))
  {
    hide Coherent, Unwrap, Tiled, Sent, AcksAreSafe, Sender.AckReceived;
    CoherentIsValid(s);
    if s.InFlight() > TWO31 {
      NothingPopsBeyondHalf(s, ackno, win);
    } else {
      AckTiled(s, ackno, win);
    }
    AckFrame(s, ackno, win);
    StaysCoherent(s, s.AckReceived(ackno, win));
  }

  lemma AckTiled(s: Sender, ackno: uint32, win: uint16)
    requires s.Valid() && Tiled(s.outstanding, s.isn, Sent(s), s.finSent, s.acked, s.next)
    requires s.InFlight() <= TWO31 && s.next < TWO63
    ensures var t := s.AckReceived(ackno, win);
      Tiled(t.outstanding, s.isn, Sent(s), s.finSent, t.acked, s.next)
  {
    hide Unwrap, EndOf, Tiled, Span, CountAcked, Sent, Sender.AckReceived;
    var a := Unwrap(ackno, s.isn, s.next);
    AckShape(s, ackno, win);
    if s.acked <= a <= s.next {
      CountAckedTiled(s.outstanding, s.isn, Sent(s), s.finSent, s.acked, s.next, a);
      SpanNone(s.outstanding);
    }
  }

  /** A step that sends nothing only has to keep the tiling. */
  lemma StaysCoherent(s: Sender, t: Sender)
    requires Coherent(s) && t.Valid() && t.isn == s.isn && t.stream == s.stream && t.next == s.next
    requires t.finSent == s.finSent && t.out == s.out && (t.outstanding == [] ==> t.retransmissions == 0)
    requires Tiled(t.outstanding, t.isn, Sent(t), t.finSent, t.acked, t.next)
    ensures Coherent(t)
  {
    hide Tiled, Carries;
    forall x | x in s.out
      ensures Genuine(x, t)
    {
      GenuineGrows(x, s, t);
    }
  }

  lemma AckFrame(s: Sender, ackno: uint32, win: uint16)
    requires s.Valid() && s.next < TWO64
    ensures var t := s.AckReceived(ackno, win);
      && t.isn == s.isn && t.stream == s.stream && t.next == s.next && t.finSent == s.finSent && t.out == s.out
      && Sent(t) == Sent(s)
      && ((s.outstanding == [] ==> s.retransmissions == 0) && t.outstanding == [] ==> t.retransmissions == 0)
  {
    hide Unwrap, EndOf, CountAcked;
  }

  /** Where a position more than half a turn back is read: at most half a turn back, whole turns ahead of its place. */
  lemma MisreadAhead(lo: nat, isn: uint32, next: nat, d: nat) returns (m: nat)
    requires lo + TWO31 < next < TWO62
    ensures m == Unwrap(Wrap(lo, isn), isn, next) && lo < next - TWO31 <= m < next + TWO31
    ensures Wrap(m + d, isn) == Wrap(lo + d, isn)
  {
    hide Unwrap, Wrap, Diff;
    m := Unwrap(Wrap(lo, isn), isn, next);
    var t := UnwrapTurns(Wrap(lo, isn), isn, next);
    WrapUnwrap(Wrap(lo, isn), isn, next);
    WrapCongruence(m, lo, isn);
    var k: int :| TurnsApart(m, lo, k);
    assert TurnsApart(m + d, lo + d, k);
    WrapCongruence(m + d, lo + d, isn);
  }

  /** An acknowledgment of the wrongly read end of the oldest segment pops that segment alone. */
  lemma UnsafeAckPopsFront(s: Sender) returns (ackno: uint32)
    requires Coherent(s) && s.next < TWO62 && !AcksAreSafe(s)
    ensures var t := s.AckReceived(ackno, 0);
      && s.outstanding != [] && t.outstanding == s.outstanding[1..] && t.next == s.next
      && t.acked > s.acked + s.outstanding[0].Length()
  {
    hide Wrap, Unwrap, EndOf, Carries, Sender.AckReceived;
    var len := s.outstanding[0].Length();
    var m := MisreadAhead(s.acked, s.isn, s.next, len);
    FrontMisread(s, m);
    if |s.outstanding| > 1 {
      SecondMisread(s, m);
    }
    ackno := Wrap(m + len, s.isn);
    UnwrapWrap(m + len, s.isn, s.next);
    CountAckedOne(s.outstanding, s.isn, s.next, m + len);
    AckPopsOne(s, ackno);
  }

  lemma AckPopsOne(s: Sender, ackno: uint32)
    requires s.Valid() && s.next < TWO62 && s.outstanding != []
    requires s.acked <= Unwrap(ackno, s.isn, s.next) <= s.next
    requires CountAcked(s.outstanding, s.isn, s.next, Unwrap(ackno, s.isn, s.next)) == 1
    ensures var t := s.AckReceived(ackno, 0);
      && t.outstanding == s.outstanding[1..] && t.next == s.next
      && t.acked == EndOf(s.outstanding[0], s.isn, s.next)
  {
    hide Unwrap, EndOf, CountAcked;
  }

  lemma FrontMisread(s: Sender, m: nat)
    requires Coherent(s) && s.next < TWO62 && s.outstanding != [] && m < TWO63
    requires m == Unwrap(Wrap(s.acked, s.isn), s.isn, s.next)
    ensures EndOf(s.outstanding[0], s.isn, s.next) == m + s.outstanding[0].Length()
  {
    hide Wrap, Unwrap, EndOf;
    TiledSpan(s.outstanding, s.isn, Sent(s), s.finSent, s.acked, s.next);
    EndIs(s.outstanding[0], s.isn, s.next, m);
  }

  lemma SecondMisread(s: Sender, m: nat)
    requires Coherent(s) && s.next < TWO62 && |s.outstanding| > 1
    requires s.next - TWO31 <= m + s.outstanding[0].Length() <= s.next
    requires Wrap(m + s.outstanding[0].Length(), s.isn) == Wrap(s.acked + s.outstanding[0].Length(), s.isn)
    ensures EndOf(s.outstanding[1], s.isn, s.next) > m + s.outstanding[0].Length()
  {
    hide Wrap, Unwrap, EndOf, Carries;
    var len, rest := s.outstanding[0].Length(), s.outstanding[1..];
    TiledSpan(s.outstanding, s.isn, Sent(s), s.finSent, s.acked, s.next);
    TiledSpan(rest, s.isn, Sent(s), s.finSent, s.acked + len, s.next);
    assert rest[0] == s.outstanding[1];
    CarriesSeqno(rest[0], s.isn, Sent(s), s.finSent, s.acked + len);
    UnwrapWrap(m + len, s.isn, s.next);
    EndIs(rest[0], s.isn, s.next, m + len);
  }

  lemma CarriesSeqno(seg: Segment, isn: uint32, sent: seq<byte>, final: bool, lo: nat)
    requires Carries(seg, isn, sent, final, lo)
    ensures seg.header.seqno == Wrap(lo, isn)
  {
  }

  lemma EndIs(seg: Segment, isn: uint32, next: uint64, start: nat)
    requires Unwrap(seg.header.seqno, isn, next) == start && start + seg.Length() < TWO64
    ensures EndOf(seg, isn, next) == start + seg.Length()
  {
    hide Unwrap;
  }

  lemma CountAckedOne(segs: seq<Segment>, isn: uint32, next: uint64, ackno: nat)
    requires segs != [] && EndOf(segs[0], isn, next) <= ackno
    requires |segs| > 1 ==> EndOf(segs[1], isn, next) > ackno
    ensures CountAcked(segs, isn, next, ackno) == 1
  {
    hide EndOf;
    assert |segs| > 1 ==> segs[1..][0] == segs[1];
  }

  /** The condition is exact: otherwise some acknowledgment leaves a gap between acknowledged and outstanding. */
  lemma AcksKeepTilingExactly(s: Sender)
    requires Coherent(s) && s.next < TWO62
    ensures (forall ackno: uint32, win: uint16 :: Coherent(s.AckReceived(ackno, win))) <==> AcksAreSafe(s)
  {
    hide Coherent, AcksAreSafe, Sender.AckReceived;
    CoherentIsValid(s);
    if AcksAreSafe(s) {
      forall ackno: uint32, win: uint16
        ensures Coherent(s.AckReceived(ackno, win))
      {
        AckCoherent(s, ackno, win);
      }
    } else {
      var ackno := UnsafeAckPopsFront(s);
      GapInTiling(s, s.AckReceived(ackno, 0));
    }
  }

  lemma GapInTiling(s: Sender, t: Sender)
    requires Coherent(s) && s.outstanding != [] && t.outstanding == s.outstanding[1..] && t.next == s.next
    requires t.acked > s.acked + s.outstanding[0].Length()
    ensures !Coherent(t)
  {
    TiledSpan(s.outstanding, s.isn, Sent(s), s.finSent, s.acked, s.next);
    if Coherent(t) {
      TiledSpan(t.outstanding, t.isn, Sent(t), t.finSent, t.acked, t.next);
    }
  }
}
