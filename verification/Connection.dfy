/** One sender and one receiver joined by a network that may lose, duplicate, delay and reorder
    segments and acknowledgments. The glue that carries them is not part of the implementation:
    an acknowledgment holds the receiver's ackno and its window cut to 16 bits, and segments travel
    in their wire format. */
module Connection {
  import opened Widths
  import opened WrappingIntegers
  import opened Segments
  import opened NetCodec
  import opened SegmentCodec
  import opened CodecTheory
  import opened Reassembly
  import opened ReassemblyTheory
  import opened Receiving
  import opened Sending
  import opened SenderInvariant
  import SenderRuns

  datatype AckMessage = AckMessage(ackno: uint32, win: uint16)

  /** Nothing leaves the network: `snd.out` holds every segment ever sent and `acks` every acknowledgment. */
  datatype State = State(snd: Sender, rcv: Receiver, acks: seq<AckMessage>)

  datatype Event =
    | SenderActs(e: SenderRuns.Event)
    | DeliverSegment(i: nat, pseudo: uint32)
    | AppReads(n: nat)
    | EmitAck
    | DeliverAck(j: nat)

  function Start(isn: uint32, sendCapacity: nat, timeout: uint16, receiveCapacity: nat): State {
    State(Closed(isn, sendCapacity, timeout), Listening(receiveCapacity), [])
  }

  /** What the receiver's side makes of a segment once it has been serialized and parsed. */
  function OverTheWire(seg: Segment, pseudo: uint32): Option<Segment> {
    if SerializeSegment(seg, pseudo).None? then None else
    var p := ParseSegment(SerializeSegment(seg, pseudo).value, pseudo);
    if p.Parsed? && p.result == NoError then Some(p.segment) else None
  }

  /** The segment starts within half a turn of the first byte that the receiver is missing. */
  ghost predicate TimelySegment(c: State, seg: Segment)
    requires c.snd.Valid()
  {
    seg.Length() > 0 ==> exists lo: nat ::
      Carries(seg, c.snd.isn, Sent(c.snd), c.snd.finSent, lo) && -TWO31 <= lo - |c.rcv.asm.out.data| < TWO31
  }

  /** The acknowledged position is less than one turn behind the next one to be sent. Where acknowledgments remove
      nothing, their age does not matter. */
  ghost predicate TimelyAck(c: State, m: AckMessage)
    requires c.snd.Valid() && c.snd.next < TWO62
  {
    && AcksAreSafe(c.snd)
    && (c.snd.InFlight() <= TWO31 ==>
          exists a: nat :: Promised(c.rcv, c.snd.isn, m, a) && c.snd.next - a < TWO32)
  }

  /** The receiver has once acknowledged everything below `a`. */
  predicate Promised(r: Receiver, isn: uint32, m: AckMessage, a: nat) {
    a <= r.AbsoluteAck() && m.ackno == Wrap(a, isn)
  }

  ghost predicate WellFormed(c: State) {
    && c.snd.Valid() && c.rcv.Valid()
    && |c.snd.stream.data| <= TWO60 && c.rcv.asm.out.capacity <= TWO62
  }

  ghost predicate Enabled(c: State, e: Event) {
    && WellFormed(c)
    && match e
       case SenderActs(x) =>
         && !x.Ack? && SenderRuns.Allowed(c.snd, x)
         && (x.Write? ==> |c.snd.stream.data| + |x.data| <= TWO60)
       case DeliverSegment(i, _) =>
         i < |c.snd.out| && TimelySegment(c, c.snd.out[i]) && c.rcv.Fits(c.snd.out[i])
       case AppReads(_) => true
       case EmitAck => true
       case DeliverAck(j) => j < |c.acks| && c.snd.next < TWO62 && TimelyAck(c, c.acks[j])
  }

  ghost function Next(c: State, e: Event): State
    requires Enabled(c, e)
  {
    match e
    case SenderActs(x) => c.(snd := SenderRuns.Apply(c.snd, x))
    case DeliverSegment(i, pseudo) =>
      var seg := OverTheWire(c.snd.out[i], pseudo);
      if seg.Some? && c.rcv.Fits(seg.value) then c.(rcv := c.rcv.Receive(seg.value)) else c
    case AppReads(n) => c.(rcv := c.rcv.Read(n))
    case EmitAck =>
      if c.rcv.Ackno().None? then c
      else c.(acks := c.acks + [AckMessage(c.rcv.Ackno().value, Min(c.rcv.Window(), 65535))])
    case DeliverAck(j) => c.(snd := c.snd.AckReceived(c.acks[j].ackno, c.acks[j].win))
  }

  ghost predicate Leads(c: State, events: seq<Event>, d: State)
    decreases |events|
  {
    if events == [] then d == c
    else Enabled(c, events[0]) && Leads(Next(c, events[0]), events[1..], d)
  }

  // ---------------------------------------------------------------------------
  // The invariant
  // ---------------------------------------------------------------------------

  /** The receiver holds only what the sender sent, and the sender believes acknowledged only what the receiver has. */
  ghost predicate Invariant(c: State) {
    && WellFormed(c)
    && Coherent(c.snd)
    && Agrees(c.rcv.asm, Sent(c.snd), c.snd.finSent)
    && (c.rcv.isn.None? ==> c.rcv.asm.out.data == [])
    && (c.rcv.isn.Some? ==> c.rcv.isn.value == c.snd.isn && c.snd.next > 0)
    && c.snd.acked <= c.rcv.AbsoluteAck()
    && forall m :: m in c.acks ==> exists a: nat :: Promised(c.rcv, c.snd.isn, m, a)
  }

  lemma StartInvariant(isn: uint32, sendCapacity: nat, timeout: uint16, receiveCapacity: nat)
    requires receiveCapacity <= TWO62
    ensures Invariant(Start(isn, sendCapacity, timeout, receiveCapacity))
  {
    ClosedIsCoherent(isn, sendCapacity, timeout);
  }

  lemma AckWithinSent(c: State)
    requires Invariant(c)
    ensures c.rcv.AbsoluteAck() <= c.snd.next
  {
  }

  // --- the sender acts ---------------------------------------------------------

  lemma LaterGrows(s: Sender, t: Sender)
    requires Coherent(s) && Coherent(t) && SenderRuns.Later(s, t)
    ensures Grows(Sent(s), s.finSent, Sent(t), t.finSent)
  {
  }

  lemma AgreesGrows(a: Assembler, sent: seq<byte>, final: bool, sent': seq<byte>, final': bool)
    requires Agrees(a, sent, final) && Grows(sent, final, sent', final')
    ensures Agrees(a, sent', final')
  {
  }

  lemma SenderActsKeeps(c: State, x: SenderRuns.Event)
    requires Invariant(c) && Enabled(c, SenderActs(x))
    ensures Invariant(Next(c, SenderActs(x)))
  {
    hide SenderRuns.Apply, Coherent, Carries, Agrees;
    var d := Next(c, SenderActs(x));
    SenderRuns.ApplyCoherent(c.snd, x);
    LaterGrows(c.snd, d.snd);
    AgreesGrows(c.rcv.asm, Sent(c.snd), c.snd.finSent, Sent(d.snd), d.snd.finSent);
    AckedUnchanged(c.snd, x);
    DataWritten(c.snd, x);
  }

  lemma AckedUnchanged(s: Sender, x: SenderRuns.Event)
    requires s.Valid() && SenderRuns.Allowed(s, x) && !x.Ack?
    ensures SenderRuns.Apply(s, x).acked == s.acked
  {
    SenderRuns.FillWindowKeeps(s);
  }

  lemma DataWritten(s: Sender, x: SenderRuns.Event)
    requires s.Valid() && SenderRuns.Allowed(s, x)
    ensures |SenderRuns.Apply(s, x).stream.data| <= |s.stream.data| + if x.Write? then |x.data| else 0
  {
    hide Unwrap;
    SenderRuns.FillWindowKeeps(s);
  }

  // --- a segment arrives -------------------------------------------------------

  lemma WireDelivers(seg: Segment, pseudo: uint32)
    requires seg.header.doff == 5
    ensures OverTheWire(seg, pseudo) == Some(seg.(header := seg.header.(cksum := SegmentChecksum(seg, pseudo))))
  {
    hide SerializeSegment, ParseSegment, SegmentChecksum;
    RoundTrip(seg, pseudo);
  }

  /** A segment without sequence numbers changes nothing, whatever its index, except that a due end is noted. */
  lemma PushEmpty(a: Assembler, index: uint64)
    requires a.Valid()
    ensures a.Push([], index, false) == a.NoteEnd()
  {
    hide Gap;
    InsertNone(a.pending, [], index, Max(index, |a.out.data|), Min(index, a.out.nread + a.out.capacity));
    a.NoteEnd().AdvanceNothing();
  }

  /** What any honest peer may send: like the segments of this sender, but a SYN may carry the first bytes of the
      stream and even the FIN. */
  ghost predicate Conveys(seg: Segment, isn: uint32, sent: seq<byte>, final: bool, lo: nat) {
    && seg.header.seqno == Wrap(lo, isn)
    && (seg.header.syn ==> lo == 0)
    && (seg.Length() > 0 ==>
          && 1 <= lo + (if seg.header.syn then 1 else 0)
          && var start := lo - 1 + if seg.header.syn then 1 else 0;
             && start + |seg.payload| <= |sent|
             && seg.payload == sent[start..start + |seg.payload|]
             && (seg.header.fin ==> final && start + |seg.payload| == |sent|))
  }

  lemma CarriesConveys(seg: Segment, isn: uint32, sent: seq<byte>, final: bool, lo: nat)
    requires Carries(seg, isn, sent, final, lo)
    ensures Conveys(seg, isn, sent, final, lo)
  {
    hide Wrap;
  }

  /** What the receiver does with a timely segment: its payload is pushed where it belongs. */
  lemma ReceiveAt(r: Receiver, seg: Segment, isn: uint32, sent: seq<byte>, final: bool, lo: nat)
    requires r.Valid() && r.Fits(seg) && |sent| <= TWO62 && Agrees(r.asm, sent, final)
    requires Conveys(seg, isn, sent, final, lo) && -TWO31 <= lo - |r.asm.out.data| < TWO31 && seg.Length() > 0
    requires if r.isn.Some? then r.isn.value == isn else seg.header.syn
    ensures var index := if seg.header.syn then 0 else lo - 1;
      && Excerpts(seg.payload, index, seg.header.fin, sent, final)
      && r.Receive(seg) == Receiver(r.asm.Push(seg.payload, index, seg.header.fin), Some(isn))
  {
    hide Unwrap, Wrap, Assembler.Push, Assembler.Valid, Agrees;
    assert Wrap(0, isn) == isn by { WrapZero(isn); }
    UnwrapWrap(lo, isn, |r.asm.out.data|);
  }

  lemma WrapZero(isn: uint32)
    ensures Wrap(0, isn) == isn
  {
  }

  lemma ReceiveKeeps(r: Receiver, seg: Segment, isn: uint32, sent: seq<byte>, final: bool, lo: nat)
    requires r.Valid() && r.Fits(seg) && |sent| <= TWO62 && Agrees(r.asm, sent, final)
    requires Conveys(seg, isn, sent, final, lo)
    requires seg.Length() > 0 ==> -TWO31 <= lo - |r.asm.out.data| < TWO31
    requires r.isn.Some? ==> r.isn.value == isn
    ensures var s := r.Receive(seg);
      && s.Valid() && Extends(r, s) && Agrees(s.asm, sent, final)
      && (s.isn.Some? ==> s.isn.value == isn)
      && (s.isn.None? ==> s == r) && (r.isn.None? && !seg.header.syn ==> s == r)
  {
    hide Unwrap, Wrap, Assembler.Push;
    assert Step(r, r.Receive(seg));
    StepExtends(r, r.Receive(seg));
    if r.Receive(seg) == r {
    } else if seg.Length() == 0 {
      var base := r.isn.value;
      var index := (Unwrap(seg.header.seqno, base, |r.asm.out.data|) - 1) % TWO64;
      PushEmpty(r.asm, index);
    } else {
      ReceiveAt(r, seg, isn, sent, final, lo);
      PushAgrees(r.asm, seg.payload, if seg.header.syn then 0 else lo - 1, seg.header.fin, sent, final);
    }
  }

  lemma ExtendsAck(r: Receiver, s: Receiver)
    requires r.Valid() && s.Valid() && Extends(r, s)
    ensures r.AbsoluteAck() <= s.AbsoluteAck()
  {
  }

  lemma FilledInCarries(seg: Segment, c: uint16, isn: uint32, sent: seq<byte>, final: bool, lo: nat)
    ensures Carries(seg.(header := seg.header.(cksum := c)), isn, sent, final, lo)
       <==> Carries(seg, isn, sent, final, lo)
  {
  }

  /** The receiver's part of the invariant only needs the receiver to move on without contradicting the sender. */
  lemma ReceiverMoves(c: State, r: Receiver)
    requires Invariant(c) && r.Valid() && Extends(c.rcv, r) && Agrees(r.asm, Sent(c.snd), c.snd.finSent)
    requires r.isn.None? ==> r.asm.out.data == []
    requires r.isn.Some? ==> r.isn.value == c.snd.isn && c.snd.next > 0
    ensures Invariant(c.(rcv := r))
  {
    hide Agrees, Coherent;
    ExtendsAck(c.rcv, r);
    forall m | m in c.acks
      ensures exists a: nat :: Promised(r, c.snd.isn, m, a)
    {
      var a: nat :| Promised(c.rcv, c.snd.isn, m, a);
      assert Promised(r, c.snd.isn, m, a);
    }
  }

  /** The receiver knows nothing but what the sender has sent. */
  ghost predicate Follows(r: Receiver, s: Sender)
    requires s.stream.Valid()
  {
    && Agrees(r.asm, Sent(s), s.finSent)
    && (r.isn.None? ==> r.asm.out.data == [])
    && (r.isn.Some? ==> r.isn.value == s.isn && s.next > 0)
  }

  /** A sender at sequence number zero has sent no segment that could open the connection. */
  lemma NothingSentYet(s: Sender, seg: Segment)
    requires s.stream.Valid() && Genuine(seg, s) && s.next == 0
    ensures !seg.header.syn
  {
  }

  /** Whatever a true segment does to the receiver, it goes on following the sender. */
  lemma DeliveryFollows(c: State, i: nat, pseudo: uint32)
    requires Enabled(c, DeliverSegment(i, pseudo)) && Genuine(c.snd.out[i], c.snd) && Follows(c.rcv, c.snd)
    ensures var r := Next(c, DeliverSegment(i, pseudo)).rcv;
      && Next(c, DeliverSegment(i, pseudo)) == c.(rcv := r)
      && r.Valid() && Extends(c.rcv, r) && Follows(r, c.snd)
  {
    hide Agrees, Carries, Genuine, OverTheWire, Receiver.Receive, SegmentChecksum;
    var seg := c.snd.out[i];
    var lo := DeliveredAt(c, seg);
    var got := seg.(header := seg.header.(cksum := SegmentChecksum(seg, pseudo)));
    FilledInCarries(seg, got.header.cksum, c.snd.isn, Sent(c.snd), c.snd.finSent, lo);
    WireDelivers(seg, pseudo);
    if c.snd.next == 0 {
      NothingSentYet(c.snd, seg);
    }
    CarriesConveys(got, c.snd.isn, Sent(c.snd), c.snd.finSent, lo);
    ReceiveKeeps(c.rcv, got, c.snd.isn, Sent(c.snd), c.snd.finSent, lo);
  }

  lemma DeliveredAt(c: State, seg: Segment) returns (lo: nat)
    requires c.snd.Valid() && Genuine(seg, c.snd) && TimelySegment(c, seg)
    ensures Carries(seg, c.snd.isn, Sent(c.snd), c.snd.finSent, lo) && seg.header.doff == 5
    ensures seg.Length() > 0 ==> -TWO31 <= lo - |c.rcv.asm.out.data| < TWO31
  {
    if seg.Length() > 0 {
      lo :| Carries(seg, c.snd.isn, Sent(c.snd), c.snd.finSent, lo) && -TWO31 <= lo - |c.rcv.asm.out.data| < TWO31;
    } else {
      lo :| SentAt(seg, c.snd, lo);
    }
  }

  lemma DeliverSegmentKeeps(c: State, i: nat, pseudo: uint32)
    requires Invariant(c) && Enabled(c, DeliverSegment(i, pseudo))
    ensures Invariant(Next(c, DeliverSegment(i, pseudo)))
  {
    hide Agrees, Carries, OverTheWire, Receiver.Receive, Next;
    DeliveryFollows(c, i, pseudo);
    ReceiverMoves(c, Next(c, DeliverSegment(i, pseudo)).rcv);
  }

  // --- reads and acknowledgments -----------------------------------------------

  lemma AppReadsKeeps(c: State, n: nat)
    requires Invariant(c) && Enabled(c, AppReads(n))
    ensures Invariant(Next(c, AppReads(n)))
  {
    hide Coherent, Agrees, Extends, Promised, Receiver.Read;
    ReadExtends(c.rcv, n);
    ReceiverMoves(c, c.rcv.Read(n));
  }

  lemma EmitAckKeeps(c: State)
    requires Invariant(c)
    ensures Invariant(Next(c, EmitAck))
  {
    hide Coherent, Agrees, Wrap;
    var d := Next(c, EmitAck);
    forall m | m in d.acks
      ensures exists a: nat :: Promised(d.rcv, d.snd.isn, m, a)
    {
      if m !in c.acks {
        assert Promised(d.rcv, d.snd.isn, m, c.rcv.AbsoluteAck());
      }
    }
  }

  /** A timely acknowledgment is understood as the position it was made from, or as one that was never sent. */
  lemma AckUnderstood(c: State, m: AckMessage, a: nat)
    requires Invariant(c) && Promised(c.rcv, c.snd.isn, m, a) && c.snd.next - a < TWO32 && c.snd.next < TWO62
    ensures var u := Unwrap(m.ackno, c.snd.isn, c.snd.next);
      if c.snd.next - a <= TWO31 then u == a <= c.snd.next else u > c.snd.next
  {
    hide Wrap, Unwrap;
    AckWithinSent(c);
    if c.snd.next - a <= TWO31 {
      UnwrapWrap(a, c.snd.isn, c.snd.next);
    } else {
      SameSequenceNumber(a, c.snd.isn);
      UnwrapWrap(a + TWO32, c.snd.isn, c.snd.next);
    }
  }

  lemma AckedAtMost(s: Sender, ackno: uint32, win: uint16)
    requires Coherent(s) && s.next < TWO62 && AcksAreSafe(s)
    ensures var t, u := s.AckReceived(ackno, win), Unwrap(ackno, s.isn, s.next);
      t.acked == s.acked || (s.InFlight() <= TWO31 && s.acked <= u <= s.next && t.acked <= u)
  {
    hide Coherent, Unwrap, Sender.AckReceived, AcksAreSafe;
    CoherentIsValid(s);
    if s.InFlight() <= TWO31 {
      AckPopsCoveredPrefix(s, ackno, win);
    } else {
      NothingPopsBeyondHalf(s, ackno, win);
    }
  }

  lemma DeliverAckKeeps(c: State, j: nat)
    requires Invariant(c) && Enabled(c, DeliverAck(j))
    ensures Invariant(Next(c, DeliverAck(j)))
  {
    hide Coherent, Agrees, Wrap, Unwrap, Sender.AckReceived, Assembler.Valid;
    var m, d := c.acks[j], Next(c, DeliverAck(j));
    if c.snd.InFlight() <= TWO31 {
      var a: nat :| Promised(c.rcv, c.snd.isn, m, a) && c.snd.next - a < TWO32;
      AckUnderstood(c, m, a);
    }
    AckedAtMost(c.snd, m.ackno, m.win);
    SenderRuns.ApplyCoherent(c.snd, SenderRuns.Ack(m.ackno, m.win));
    LaterGrows(c.snd, d.snd);
    AgreesGrows(c.rcv.asm, Sent(c.snd), c.snd.finSent, Sent(d.snd), d.snd.finSent);
    SenderRuns.AckLater(c.snd, m.ackno, m.win);
    DataWritten(c.snd, SenderRuns.Ack(m.ackno, m.win));
  }

  lemma NextKeeps(c: State, e: Event)
    requires Invariant(c) && Enabled(c, e)
    ensures Invariant(Next(c, e))
  {
    hide Invariant, Next, Enabled;
    match e {
      case SenderActs(x) => SenderActsKeeps(c, x);
      case DeliverSegment(i, pseudo) => DeliverSegmentKeeps(c, i, pseudo);
      case AppReads(n) => AppReadsKeeps(c, n);
      case EmitAck => EmitAckKeeps(c);
      case DeliverAck(j) => DeliverAckKeeps(c, j);
    }
  }

  lemma {:induction false} RunKeeps(c: State, events: seq<Event>, d: State)
    requires Invariant(c) && Leads(c, events, d)
    ensures Invariant(d)
    decreases |events|
  {
    hide Invariant, Next, Enabled;
    if events != [] {
      NextKeeps(c, events[0]);
      RunKeeps(Next(c, events[0]), events[1..], d);
    }
  }

  // ---------------------------------------------------------------------------
  // Nothing is lost
  // ---------------------------------------------------------------------------

  lemma {:induction false} TiledCovers(segs: seq<Segment>, isn: uint32, sent: seq<byte>, final: bool,
      lo: nat, hi: nat, p: nat) returns (k: nat, start: nat)
    requires Tiled(segs, isn, sent, final, lo, hi) && lo <= p < hi
    ensures k < |segs| && Carries(segs[k], isn, sent, final, start) && start <= p < start + segs[k].Length()
  {
    hide Carries;
    if p < lo + segs[0].Length() {
      k, start := 0, lo;
    } else {
      k, start := TiledCovers(segs[1..], isn, sent, final, lo + segs[0].Length(), hi, p);
      k := k + 1;
    }
  }

  /** Nothing is forgotten too early: a position that was sent and that the receiver has not yet assembled is
      still carried by an outstanding segment. */
  lemma NothingAcknowledgedIsLost(isn: uint32, sendCapacity: nat, timeout: uint16, receiveCapacity: nat,
      events: seq<Event>, c: State, p: nat)
    requires receiveCapacity <= TWO62
    requires Leads(Start(isn, sendCapacity, timeout, receiveCapacity), events, c)
    ensures c.snd.Valid() && c.snd.acked <= c.rcv.AbsoluteAck() <= c.snd.next
    ensures c.rcv.AbsoluteAck() <= p < c.snd.next ==>
      exists k: nat, start: nat :: k < |c.snd.outstanding|
        && Carries(c.snd.outstanding[k], c.snd.isn, Sent(c.snd), c.snd.finSent, start)
        && start <= p < start + c.snd.outstanding[k].Length()
  {
    hide Leads, Carries;
    StartInvariant(isn, sendCapacity, timeout, receiveCapacity);
    RunKeeps(Start(isn, sendCapacity, timeout, receiveCapacity), events, c);
    AckWithinSent(c);
    if c.rcv.AbsoluteAck() <= p < c.snd.next {
      var k, start := TiledCovers(c.snd.outstanding, c.snd.isn, Sent(c.snd), c.snd.finSent, c.snd.acked, c.snd.next, p);
    }
  }

  lemma TimelyWhenShort(c: State)
    requires Invariant(c) && |c.snd.stream.data| + 2 <= TWO31
    ensures forall seg :: seg in c.snd.out ==> TimelySegment(c, seg) && c.rcv.Fits(seg)
    ensures c.snd.next < TWO62 && forall m :: m in c.acks ==> TimelyAck(c, m)
  {
    hide Wrap;
    AckWithinSent(c);
    forall seg | seg in c.snd.out
      ensures TimelySegment(c, seg) && c.rcv.Fits(seg)
    {
      assert Genuine(seg, c.snd);
      var lo: nat :| SentAt(seg, c.snd, lo);
      assert Carries(seg, c.snd.isn, Sent(c.snd), c.snd.finSent, lo);
    }
    forall m | m in c.acks
      ensures TimelyAck(c, m)
    {
      var a: nat :| Promised(c.rcv, c.snd.isn, m, a);
      assert c.snd.next - a < TWO32;
    }
  }

  /** While no more than 2^31 - 2 bytes have been written the network is unconstrained: every segment and
      every acknowledgment ever sent may be delivered at any time. */
  lemma ShortStreamsAreUnconstrained(isn: uint32, sendCapacity: nat, timeout: uint16, receiveCapacity: nat,
      events: seq<Event>, c: State)
    requires receiveCapacity <= TWO62
    requires Leads(Start(isn, sendCapacity, timeout, receiveCapacity), events, c)
    requires |c.snd.stream.data| + 2 <= TWO31
    ensures forall i: nat, pseudo: uint32 :: i < |c.snd.out| ==> Enabled(c, DeliverSegment(i, pseudo))
    ensures forall j: nat :: j < |c.acks| ==> Enabled(c, DeliverAck(j))
  {
    hide Leads, Coherent, Agrees, TimelySegment, TimelyAck, Receiver.Fits;
    StartInvariant(isn, sendCapacity, timeout, receiveCapacity);
    RunKeeps(Start(isn, sendCapacity, timeout, receiveCapacity), events, c);
    TimelyWhenShort(c);
    NextBounded(c);
  }

  lemma NextBounded(c: State)
    requires Invariant(c)
    ensures c.snd.next <= |c.snd.stream.data| + 2 < TWO62
  {
  }
}
