/** Liveness of the composed machine: rounds without loss advance it, and every transfer can be completed. */
module Progress {
  import opened Widths
  import opened WrappingIntegers
  import opened Segments
  import opened SegmentCodec
  import opened Timers
  import opened Reassembly
  import opened ReassemblyTheory
  import opened Receiving
  import opened Sending
  import opened SenderInvariant
  import SenderRuns
  import FillWindowTheory
  import opened Connection

  // ---------------------------------------------------------------------------
  // Composing runs
  // ---------------------------------------------------------------------------

  lemma {:induction false} LeadsConcat(c: State, xs: seq<Event>, d: State, ys: seq<Event>, e: State)
    requires Leads(c, xs, d) && Leads(d, ys, e)
    ensures Leads(c, xs + ys, e)
    decreases |xs|
  {
    hide Next, Enabled;
    if xs == [] {
      assert xs + ys == ys;
    } else {
      LeadsConcat(Next(c, xs[0]), xs[1..], d, ys, e);
      assert (xs + ys)[1..] == xs[1..] + ys;
    }
  }

  lemma LeadsOne(c: State, e: Event)
    requires Enabled(c, e)
    ensures Leads(c, [e], Next(c, e))
  {
    hide Next, Enabled;
    assert [e][1..] == [];
  }

  // ---------------------------------------------------------------------------
  // One round without loss
  // ---------------------------------------------------------------------------

  /** Just long enough for the timer to expire. */
  function Wait(t: Timer): uint64 {
    if t.elapsed >= t.rto then 0 else t.rto - t.elapsed
  }

  /** When the timer expires, the oldest outstanding segment is sent again and nothing else changes. */
  lemma TickRetransmits(s: Sender)
    requires s.Valid() && s.outstanding != []
    ensures var t := s.Tick(Wait(s.timer));
      && t.out == s.out + [s.outstanding[0]]
      && t == s.(out := t.out, timer := t.timer, retransmissions := t.retransmissions)
  {
  }

  /** The oldest outstanding segment brings the receiver on: past the segment if there is room for it, and by at
      least one sequence number if there is any room at all. */
  lemma FrontAdvances(r: Receiver, seg: Segment, isn: uint32, sent: seq<byte>, final: bool, lo: nat)
    requires r.Valid() && r.Fits(seg) && |sent| <= TWO62 && Agrees(r.asm, sent, final)
    requires Conveys(seg, isn, sent, final, lo) && seg.Length() > 0
    requires -TWO31 <= lo - |r.asm.out.data| < TWO31
    requires r.isn.Some? ==> r.isn.value == isn
    requires lo <= r.AbsoluteAck() < lo + seg.Length()
    ensures var s := r.Receive(seg);
      && (r.Window() > 0 ==> r.AbsoluteAck() < s.AbsoluteAck())
      && (lo + |seg.payload| + (if seg.header.syn then 1 else 0) <= r.asm.out.nread + r.asm.out.capacity + 1 ==>
            lo + seg.Length() <= s.AbsoluteAck())
  {
    hide Conveys, Excerpts, Agrees, Assembler.Valid, Assembler.Push, Receiver.Receive;
    AgreesBounds(r.asm, sent, final);
    ConveysBounds(seg, isn, sent, final, lo);
    ReceiveAt(r, seg, isn, sent, final, lo);
    var index := if seg.header.syn then 0 else lo - 1;
    PushAgrees(r.asm, seg.payload, index, seg.header.fin, sent, final);
    PushKeepsValid(r.asm, seg.payload, index, seg.header.fin);
    PushAdvances(r.asm, seg.payload, index, seg.header.fin, sent, final);
    AgreesBounds(r.asm.Push(seg.payload, index, seg.header.fin), sent, final);
  }

  lemma AgreesBounds(a: Assembler, sent: seq<byte>, final: bool)
    requires a.Valid() && Agrees(a, sent, final)
    ensures a.out.Valid() && |a.out.data| <= |sent| && (a.out.ended ==> |a.out.data| == |sent|)
  {
  }

  lemma ConveysBounds(seg: Segment, isn: uint32, sent: seq<byte>, final: bool, lo: nat)
    requires Conveys(seg, isn, sent, final, lo) && seg.Length() > 0
    ensures if seg.header.syn then lo == 0 else lo >= 1
    ensures var end := lo + |seg.payload| + if seg.header.syn then 1 else 0;
      end - 1 <= |sent| && (seg.header.fin ==> end - 1 == |sent|)
  {
    hide Wrap;
  }

  /** Delivering a copy of the oldest outstanding segment. */
  lemma DeliverFront(c: State, i: nat)
    requires Invariant(c) && c.snd.outstanding != [] && c.snd.InFlight() <= TWO31
    requires i < |c.snd.out| && c.snd.out[i] == c.snd.outstanding[0]
    ensures Enabled(c, DeliverSegment(i, 0))
    ensures var d, front := Next(c, DeliverSegment(i, 0)), c.snd.outstanding[0];
      && d == c.(rcv := d.rcv) && d.rcv.Valid() && Extends(c.rcv, d.rcv)
      && d.rcv.asm.out.nread == c.rcv.asm.out.nread
      && (c.rcv.Window() > 0 ==> d.rcv.AbsoluteAck() >= Min(c.rcv.AbsoluteAck() + 1, c.snd.acked + front.Length()))
      && (c.snd.acked + |front.payload| <= c.rcv.asm.out.nread + c.rcv.asm.out.capacity + 1 ==>
            d.rcv.AbsoluteAck() >= c.snd.acked + front.Length())
  {
    hide Coherent, Agrees, Carries, OverTheWire, Receiver.Receive, SegmentChecksum;
    var front, lo := c.snd.outstanding[0], c.snd.acked;
    FrontIsTimely(c);
    assert TimelySegment(c, front);
    var got := front.(header := front.header.(cksum := SegmentChecksum(front, 0)));
    FilledInCarries(front, got.header.cksum, c.snd.isn, Sent(c.snd), c.snd.finSent, lo);
    WireDelivers(front, 0);
    CarriesConveys(got, c.snd.isn, Sent(c.snd), c.snd.finSent, lo);
    ReceiveKeeps(c.rcv, got, c.snd.isn, Sent(c.snd), c.snd.finSent, lo);
    ExtendsAck(c.rcv, c.rcv.Receive(got));
    ReceiveReadsNothing(c.rcv, got);
    if c.rcv.AbsoluteAck() < lo + front.Length() {
      FrontAdvances(c.rcv, got, c.snd.isn, Sent(c.snd), c.snd.finSent, lo);
    }
  }

  lemma FrontIsTimely(c: State)
    requires Invariant(c) && c.snd.outstanding != [] && c.snd.InFlight() <= TWO31
    ensures var front := c.snd.outstanding[0];
      && Carries(front, c.snd.isn, Sent(c.snd), c.snd.finSent, c.snd.acked) && front.header.doff == 5
      && front.Length() > 0 && c.rcv.Fits(front) && (front.header.syn ==> c.snd.acked == 0 && front.payload == [])
      && -TWO31 <= c.snd.acked - |c.rcv.asm.out.data| < TWO31
  {
    hide Wrap;
    AckWithinSent(c);
    TiledSpan(c.snd.outstanding, c.snd.isn, Sent(c.snd), c.snd.finSent, c.snd.acked, c.snd.next);
  }

  lemma ReceiveReadsNothing(r: Receiver, seg: Segment)
    requires r.Valid() && r.Fits(seg)
    ensures r.Receive(seg).asm.out.nread == r.asm.out.nread
  {
    hide Unwrap, Assembler.Accept;
  }

  lemma SpanAtLeastFirst(segs: seq<Segment>, k: nat)
    requires 0 < k <= |segs|
    ensures Span(segs[..k]) >= segs[0].Length()
  {
    assert segs[..k][0] == segs[0];
  }

  /** An acknowledgment past the oldest segment moves the sender past it. */
  lemma AckedAtLeast(s: Sender, ackno: uint32, win: uint16)
    requires Coherent(s) && s.InFlight() <= TWO31 && s.next < TWO62 && s.outstanding != []
    requires s.acked + s.outstanding[0].Length() <= Unwrap(ackno, s.isn, s.next) <= s.next
    ensures s.AckReceived(ackno, win).acked >= s.acked + s.outstanding[0].Length()
  {
    hide Coherent, Unwrap, Sender.AckReceived;
    AckPopsCoveredPrefix(s, ackno, win);
    forall k: nat | 0 < k <= |s.outstanding|
      ensures Span(s.outstanding[..k]) >= s.outstanding[0].Length()
    {
      SpanAtLeastFirst(s.outstanding, k);
    }
  }

  lemma AckKeepsStream(s: Sender, ackno: uint32, win: uint16)
    requires s.Valid() && s.next < TWO62
    ensures s.AckReceived(ackno, win).stream == s.stream && s.AckReceived(ackno, win).next == s.next
  {
    hide Unwrap, CountAcked;
  }

  /** An acknowledgment that travels without loss: if the receiver is past the oldest segment, so is the sender then. */
  lemma AckRound(c: State)
    requires Invariant(c) && c.rcv.isn.Some? && c.snd.outstanding != [] && c.snd.InFlight() <= TWO31
    ensures Enabled(c, EmitAck) && Enabled(Next(c, EmitAck), DeliverAck(|c.acks|))
    ensures var d := Next(Next(c, EmitAck), DeliverAck(|c.acks|));
      && d.rcv == c.rcv && c.snd.acked <= d.snd.acked
      && d.snd.stream == c.snd.stream && d.snd.next == c.snd.next
      && (c.rcv.AbsoluteAck() >= c.snd.acked + c.snd.outstanding[0].Length() ==>
            d.snd.acked >= c.snd.acked + c.snd.outstanding[0].Length())
  {
    hide Coherent, Agrees, Wrap, Unwrap, Sender.AckReceived;
    var e, m := Next(c, EmitAck), AckMessage(c.rcv.Ackno().value, Min(c.rcv.Window(), 65535));
    EmitAckKeeps(c);
    AckWithinSent(c);
    NextBounded(c);
    assert e.acks[|c.acks|] == m && Promised(e.rcv, e.snd.isn, m, c.rcv.AbsoluteAck());
    assert e.snd.next - c.rcv.AbsoluteAck() < TWO32;
    AckUnderstood(e, m, c.rcv.AbsoluteAck());
    AckKeepsStream(e.snd, m.ackno, m.win);
    SenderRuns.AckLater(e.snd, m.ackno, m.win);
    if c.rcv.AbsoluteAck() >= c.snd.acked + c.snd.outstanding[0].Length() {
      AckedAtLeast(e.snd, m.ackno, m.win);
    }
  }

  /** The timer expires, the segment it resends arrives, and the acknowledgment it causes arrives. */
  function RoundEvents(c: State): seq<Event> {
    [SenderActs(SenderRuns.Tick(Wait(c.snd.timer))), DeliverSegment(|c.snd.out|, 0)] + [EmitAck, DeliverAck(|c.acks|)]
  }

  lemma LeadsTwo(c: State, e: Event, f: Event)
    requires Enabled(c, e) && Enabled(Next(c, e), f)
    ensures Leads(c, [e, f], Next(Next(c, e), f))
  {
    hide Next, Enabled;
    LeadsOne(c, e);
    LeadsOne(Next(c, e), f);
    LeadsConcat(c, [e], Next(c, e), [f], Next(Next(c, e), f));
    assert [e] + [f] == [e, f];
  }

  /** The first half of a round: timeout and delivery. */
  lemma RetransmissionArrives(c: State) returns (d: State)
    requires Invariant(c) && c.snd.outstanding != [] && c.snd.InFlight() <= TWO31 && c.rcv.Window() > 0
    ensures Leads(c, [SenderActs(SenderRuns.Tick(Wait(c.snd.timer))), DeliverSegment(|c.snd.out|, 0)], d)
    ensures Invariant(d)
    ensures d.acks == c.acks && Extends(c.rcv, d.rcv) && d.rcv.asm.out.nread == c.rcv.asm.out.nread
    ensures d.snd == c.snd.(out := d.snd.out, timer := d.snd.timer, retransmissions := d.snd.retransmissions)
    ensures var front := c.snd.outstanding[0];
      && d.rcv.AbsoluteAck() >= Min(c.rcv.AbsoluteAck() + 1, c.snd.acked + front.Length())
      && (c.snd.acked + |front.payload| <= c.rcv.asm.out.nread + c.rcv.asm.out.capacity + 1 ==>
            d.rcv.AbsoluteAck() >= c.snd.acked + front.Length())
  {
    hide Coherent, Agrees, Carries, OverTheWire, Sender.Tick, Leads;
    var e := SenderActs(SenderRuns.Tick(Wait(c.snd.timer)));
    var b := Next(c, e);
    TickRetransmits(c.snd);
    NextKeeps(c, e);
    DeliverFront(b, |c.snd.out|);
    d := Next(b, DeliverSegment(|c.snd.out|, 0));
    NextKeeps(b, DeliverSegment(|c.snd.out|, 0));
    LeadsTwo(c, e, DeliverSegment(|c.snd.out|, 0));
  }

  /** One round without loss makes progress at the sender or at the receiver; with room for the whole segment
      the sender gets past it. */
  lemma LossFreeRound(c: State) returns (d: State)
    requires Invariant(c) && c.snd.outstanding != [] && c.snd.InFlight() <= TWO31 && c.rcv.Window() > 0
    ensures Leads(c, RoundEvents(c), d) && Invariant(d)
    ensures c.snd.acked <= d.snd.acked && c.rcv.AbsoluteAck() <= d.rcv.AbsoluteAck()
    ensures c.snd.acked < d.snd.acked || c.rcv.AbsoluteAck() < d.rcv.AbsoluteAck()
    ensures c.snd.acked + |c.snd.outstanding[0].payload| <= c.rcv.asm.out.nread + c.rcv.asm.out.capacity + 1 ==>
      d.snd.acked >= c.snd.acked + c.snd.outstanding[0].Length()
    ensures d.snd.stream == c.snd.stream && d.snd.next == c.snd.next && d.rcv.asm.out.capacity == c.rcv.asm.out.capacity
  {
    hide Coherent, Agrees, Carries, OverTheWire, Leads;
    var b := RetransmissionArrives(c);
    FrontNonEmpty(c);
    ExtendsAck(c.rcv, b.rcv);
    AckRound(b);
    d := Next(Next(b, EmitAck), DeliverAck(|b.acks|));
    NextKeeps(b, EmitAck);
    NextKeeps(Next(b, EmitAck), DeliverAck(|b.acks|));
    LeadsTwo(b, EmitAck, DeliverAck(|b.acks|));
    LeadsConcat(c, [SenderActs(SenderRuns.Tick(Wait(c.snd.timer))), DeliverSegment(|c.snd.out|, 0)], b,
      [EmitAck, DeliverAck(|c.acks|)], d);
  }

  lemma FrontNonEmpty(c: State)
    requires Invariant(c) && c.snd.outstanding != []
    ensures c.snd.outstanding[0].Length() > 0
  {
  }

  // ---------------------------------------------------------------------------
  // Every transfer can be completed
  // ---------------------------------------------------------------------------

  /** The receiver has the whole stream and knows it, and the sender knows that. */
  ghost predicate Complete(c: State) {
    && c.rcv.asm.out.ended && c.rcv.asm.out.data == c.snd.stream.data
    && c.snd.finSent && c.snd.acked == c.snd.next
  }

  function Remaining(c: State): int {
    2 * (|c.snd.stream.data| + 2) - c.snd.acked - c.rcv.AbsoluteAck()
  }

  lemma AllAcknowledged(c: State)
    requires Invariant(c) && c.snd.stream.ended
    ensures c.snd.acked <= c.rcv.AbsoluteAck() <= c.snd.next <= |c.snd.stream.data| + 2
    ensures c.snd.acked == |c.snd.stream.data| + 2 ==> Complete(c)
  {
  }

  /** With nothing outstanding and something left to send, fill_window sends. A zero window does not stop it. */
  lemma FillWindowSends(c: State)
    requires Invariant(c) && c.snd.stream.ended && c.snd.outstanding == []
    requires c.snd.acked < |c.snd.stream.data| + 2
    ensures Enabled(c, SenderActs(SenderRuns.FillWindow))
    ensures var d := Next(c, SenderActs(SenderRuns.FillWindow));
      && Invariant(d) && d.snd.outstanding != [] && d.snd.InFlight() <= TWO31
      && d.rcv == c.rcv && d.snd.acked == c.snd.acked && d.snd.stream.data == c.snd.stream.data && d.snd.stream.ended
  {
    hide Agrees, Carries, Sender.FillWindow;
    var d := Next(c, SenderActs(SenderRuns.FillWindow));
    NextKeeps(c, SenderActs(SenderRuns.FillWindow));
    TiledSpan(c.snd.outstanding, c.snd.isn, Sent(c.snd), c.snd.finSent, c.snd.acked, c.snd.next);
    TiledSpan(d.snd.outstanding, d.snd.isn, Sent(d.snd), d.snd.finSent, d.snd.acked, d.snd.next);
    SenderRuns.FillWindowKeeps(c.snd);
    NextBounded(c);
    FillWindowTheory.FlowControl(c.snd);
    FillWindowTheory.FillWindowIsMaximal(c.snd);
  }

  /** Something in flight, after fill_window if need be. */
  lemma SomethingInFlight(c: State) returns (events: seq<Event>, d: State)
    requires Invariant(c) && c.snd.stream.ended && c.snd.InFlight() <= TWO31
    requires c.snd.acked < |c.snd.stream.data| + 2
    ensures Leads(c, events, d) && Invariant(d) && d.snd.outstanding != [] && d.snd.InFlight() <= TWO31
    ensures |events| <= 1
    ensures d.rcv == c.rcv && d.snd.acked == c.snd.acked && d.snd.stream.data == c.snd.stream.data && d.snd.stream.ended
  {
    hide Invariant, Next, Enabled;
    if c.snd.outstanding == [] {
      FillWindowSends(c);
      events, d := [SenderActs(SenderRuns.FillWindow)], Next(c, SenderActs(SenderRuns.FillWindow));
      LeadsOne(c, SenderActs(SenderRuns.FillWindow));
    } else {
      events, d := [], c;
    }
  }

  /** The application empties the receiver's buffer. */
  lemma ReadEverything(c: State)
    requires Invariant(c)
    ensures Enabled(c, AppReads(|c.rcv.asm.out.Buffer()|))
    ensures var d := Next(c, AppReads(|c.rcv.asm.out.Buffer()|));
      && Invariant(d) && d.snd == c.snd && d.rcv.AbsoluteAck() == c.rcv.AbsoluteAck()
      && d.rcv.asm.out.capacity == c.rcv.asm.out.capacity && d.rcv.Window() == c.rcv.asm.out.capacity
  {
    hide Coherent, Agrees;
    NextKeeps(c, AppReads(|c.rcv.asm.out.Buffer()|));
  }

  /** Sending, reading and one round without loss bring an unfinished transfer closer to its end. */
  lemma CloserToTheEnd(c: State) returns (events: seq<Event>, d: State)
    requires Invariant(c) && c.snd.stream.ended && c.snd.InFlight() <= TWO31 && c.rcv.asm.out.capacity > 0
    requires c.snd.acked < |c.snd.stream.data| + 2
    ensures Leads(c, events, d) && Invariant(d) && d.snd.stream.ended && d.snd.InFlight() <= TWO31
    ensures d.snd.stream.data == c.snd.stream.data && d.rcv.asm.out.capacity == c.rcv.asm.out.capacity
    ensures Remaining(d) < Remaining(c) && |events| <= 6
  {
    hide Coherent, Agrees, Next, Enabled, Leads;
    var first, a := SomethingInFlight(c);
    var read := AppReads(|a.rcv.asm.out.Buffer()|);
    ReadEverything(a);
    var b := Next(a, read);
    LeadsOne(a, read);
    LeadsConcat(c, first, a, [read], b);
    d := LossFreeRound(b);
    LeadsConcat(c, first + [read], b, RoundEvents(b), d);
    events := first + [read] + RoundEvents(b);
  }

  lemma {:induction false} CanComplete(c: State) returns (events: seq<Event>, d: State)
    requires Invariant(c) && c.snd.stream.ended && c.snd.InFlight() <= TWO31 && c.rcv.asm.out.capacity > 0
    ensures Leads(c, events, d) && Complete(d) && d.snd.stream.data == c.snd.stream.data
    ensures |events| <= 6 * Remaining(c)
    decreases Remaining(c)
  {
    AllAcknowledged(c);
    hide Coherent, Agrees, Next, Enabled, Leads;
    if c.snd.acked == |c.snd.stream.data| + 2 {
      events, d := [], c;
      LeadsNothing(c);
    } else {
      var turn, b := CloserToTheEnd(c);
      var rest;
      rest, d := CanComplete(b);
      LeadsConcat(c, turn, b, rest, d);
      events := turn + rest;
    }
  }

  lemma LeadsNothing(c: State)
    ensures Leads(c, [], c)
  {
  }

  /** From every reachable state with at most 2^31 in flight the machine can still run to completion, in a number of
      steps linear in the length of the stream, whatever losses, delays, closed windows and timeouts came before. */
  lemma EveryTransferCanBeCompleted(isn: uint32, sendCapacity: nat, timeout: uint16, receiveCapacity: nat,
      events: seq<Event>, c: State)
    requires 0 < receiveCapacity <= TWO62
    requires Leads(Start(isn, sendCapacity, timeout, receiveCapacity), events, c)
    requires c.snd.Valid() && c.snd.InFlight() <= TWO31
    ensures exists more: seq<Event>, d: State ::
      && Leads(c, more, d) && Complete(d) && d.snd.stream.data == c.snd.stream.data
      && |more| <= 12 * (|c.snd.stream.data| + 2) + 1
  {
    hide Leads, Coherent, Agrees;
    StartInvariant(isn, sendCapacity, timeout, receiveCapacity);
    RunKeeps(Start(isn, sendCapacity, timeout, receiveCapacity), events, c);
    CapacityKept(Start(isn, sendCapacity, timeout, receiveCapacity), events, c);
    var end := SenderActs(SenderRuns.EndInput);
    var b := Next(c, end);
    NextKeeps(c, end);
    LeadsOne(c, end);
    var rest, d := CanComplete(b);
    LeadsConcat(c, [end], b, rest, d);
  }

  lemma {:induction false} CapacityKept(c: State, events: seq<Event>, d: State)
    requires Invariant(c) && Leads(c, events, d)
    ensures d.rcv.asm.out.capacity == c.rcv.asm.out.capacity
    decreases |events|
  {
    if events != [] {
      NextKeeps(c, events[0]);
      CapacityStep(c, events[0]);
      CapacityKept(Next(c, events[0]), events[1..], d);
    }
  }

  lemma CapacityStep(c: State, e: Event)
    requires Invariant(c) && Enabled(c, e)
    ensures Next(c, e).rcv.asm.out.capacity == c.rcv.asm.out.capacity
  {
    hide Coherent, Agrees, OverTheWire, Unwrap, Assembler.Accept;
  }

  // ---------------------------------------------------------------------------
  // Enough turns complete every run
  // ---------------------------------------------------------------------------

  /** Once the stream has ended no step increases what remains, or changes what was written. */
  lemma RemainingNeverGrows(c: State, e: Event)
    requires Invariant(c) && c.snd.stream.ended && Enabled(c, e)
    ensures var d := Next(c, e);
      Remaining(d) <= Remaining(c) && c.snd.acked <= d.snd.acked
      && d.snd.stream.ended && d.snd.stream.data == c.snd.stream.data
  {
    hide Coherent, Agrees, OverTheWire, Receiver.Receive, Sender.AckReceived, SenderRuns.Apply;
    match e {
      case SenderActs(x) =>
        SenderRuns.ApplyCoherent(c.snd, x);
        SameData(c.snd, x);
      case DeliverSegment(i, pseudo) =>
        var seg := OverTheWire(c.snd.out[i], pseudo);
        if seg.Some? && c.rcv.Fits(seg.value) {
          assert Step(c.rcv, c.rcv.Receive(seg.value));
          StepExtends(c.rcv, c.rcv.Receive(seg.value));
          ExtendsAck(c.rcv, c.rcv.Receive(seg.value));
        }
      case AppReads(n) =>
        ReadExtends(c.rcv, n);
        ExtendsAck(c.rcv, c.rcv.Read(n));
      case EmitAck =>
      case DeliverAck(j) =>
        SenderRuns.AckLater(c.snd, c.acks[j].ackno, c.acks[j].win);
        AckKeepsStream(c.snd, c.acks[j].ackno, c.acks[j].win);
    }
  }

  lemma SameData(s: Sender, x: SenderRuns.Event)
    requires s.Valid() && SenderRuns.Allowed(s, x) && s.stream.ended
    ensures SenderRuns.Apply(s, x).stream.data == s.stream.data
  {
    hide Unwrap;
    SenderRuns.FillWindowKeeps(s);
  }

  // --- turns -------------------------------------------------------------------

  /** fill_window, and the application reads all there is. */
  function Opening(c: State): seq<Event>
    requires c.rcv.asm.out.Valid()
  {
    [SenderActs(SenderRuns.FillWindow), AppReads(|c.rcv.asm.out.Buffer()|)]
  }

  /** A turn: the opening and then, if something is outstanding, a round without loss. A turn takes place while no more
      than half of the sequence numbers are in flight. */
  ghost predicate TakesTurn(c: State, d: State) {
    && c.rcv.asm.out.Valid()
    && exists b: State :: Leads(c, Opening(c), b) && Closes(b, d)
  }

  ghost predicate Closes(b: State, d: State) {
    && b.snd.Valid() && b.snd.InFlight() <= TWO31
    && if b.snd.outstanding == [] then d == b else Leads(b, RoundEvents(b), d)
  }

  /** A transfer that is going on: the writer is done and the receiver has a buffer. */
  ghost predicate Underway(c: State) {
    Invariant(c) && c.snd.stream.ended && c.rcv.asm.out.capacity > 0
  }

  lemma {:induction false} LeadsIsUnique(c: State, events: seq<Event>, d: State, e: State)
    requires Leads(c, events, d) && Leads(c, events, e)
    ensures d == e
    decreases |events|
  {
    hide Next, Enabled;
    if events != [] {
      LeadsIsUnique(Next(c, events[0]), events[1..], d, e);
    }
  }

  lemma FillWindowOpens(c: State)
    requires Underway(c)
    ensures Enabled(c, SenderActs(SenderRuns.FillWindow))
    ensures var b := Next(c, SenderActs(SenderRuns.FillWindow));
      && Underway(b) && b.rcv == c.rcv && b.snd == c.snd.FillWindow() && b.snd.acked == c.snd.acked
      && b.snd.stream.data == c.snd.stream.data
      && (c.snd.acked < |c.snd.stream.data| + 2 ==> b.snd.outstanding != [])
  {
    hide Coherent, Agrees, Sender.FillWindow;
    NextKeeps(c, SenderActs(SenderRuns.FillWindow));
    SenderRuns.FillWindowKeeps(c.snd);
    if c.snd.outstanding == [] && c.snd.acked < |c.snd.stream.data| + 2 {
      FillWindowSends(c);
    }
  }

  lemma Opened(c: State) returns (b: State)
    requires Underway(c)
    ensures Leads(c, Opening(c), b) && Underway(b) && b.rcv.Window() > 0
    ensures Remaining(b) == Remaining(c) && b.snd == c.snd.FillWindow() && b.snd.acked == c.snd.acked
    ensures b.snd.stream.data == c.snd.stream.data
    ensures c.snd.acked < |c.snd.stream.data| + 2 ==> b.snd.outstanding != []
  {
    hide Coherent, Agrees, Sender.FillWindow, Leads, Next, Enabled;
    FillWindowOpens(c);
    var a, read := Next(c, SenderActs(SenderRuns.FillWindow)), AppReads(|c.rcv.asm.out.Buffer()|);
    ReadEverything(a);
    b := Next(a, read);
    LeadsTwo(c, SenderActs(SenderRuns.FillWindow), read);
  }

  /** A turn brings an unfinished transfer closer to its end, and leaves a finished one finished. */
  lemma TurnReduces(c: State, d: State)
    requires Underway(c) && TakesTurn(c, d)
    ensures Underway(d) && d.snd.stream.data == c.snd.stream.data && c.snd.acked <= d.snd.acked
    ensures Remaining(d) < Remaining(c) || (Complete(d) && Remaining(d) == Remaining(c) == 0)
  {
    AllAcknowledged(c);
    hide Coherent, Agrees, Sender.FillWindow, Leads, Next, Enabled, WellFormed, Complete;
    var b: State :| Leads(c, Opening(c), b) && Closes(b, d);
    var b' := Opened(c);
    LeadsIsUnique(c, Opening(c), b, b');
    AllAcknowledged(b);
    if b.snd.outstanding != [] {
      var d' := LossFreeRound(b);
      LeadsIsUnique(b, RoundEvents(b), d, d');
    }
  }

  /** A turn can be taken exactly while fill_window leaves at most half of the sequence numbers in flight. */
  lemma TurnPossible(c: State)
    requires Underway(c)
    ensures (exists d: State :: TakesTurn(c, d)) <==> c.snd.FillWindow().InFlight() <= TWO31
  {
    hide Coherent, Agrees, Sender.FillWindow, Leads, Next, Enabled;
    var b := Opened(c);
    if c.snd.FillWindow().InFlight() <= TWO31 {
      var d := b;
      if b.snd.outstanding != [] {
        d := LossFreeRound(b);
      }
      assert Closes(b, d);
      assert TakesTurn(c, d);
    } else if d: State :| TakesTurn(c, d) {
      var b': State :| Leads(c, Opening(c), b') && Closes(b', d);
      LeadsIsUnique(c, Opening(c), b, b');
      assert false;
    }
  }

  // --- schedules ---------------------------------------------------------------

  /** A schedule: single steps of any kind, and turns. */
  datatype Move = Anything(e: Event) | Turn

  /** `d` is reached from `c` by the schedule. */
  ghost predicate Plays(c: State, moves: seq<Move>, d: State)
    decreases |moves|
  {
    if moves == [] then d == c else
    match moves[0]
    case Anything(e) => Enabled(c, e) && Plays(Next(c, e), moves[1..], d)
    case Turn => exists b: State :: TakesTurn(c, b) && Plays(b, moves[1..], d)
  }

  function Turns(moves: seq<Move>): nat {
    if moves == [] then 0 else (if moves[0].Turn? then 1 else 0) + Turns(moves[1..])
  }

  lemma StepReduces(c: State, e: Event)
    requires Underway(c) && Enabled(c, e)
    ensures var d := Next(c, e);
      && Underway(d) && d.snd.stream.data == c.snd.stream.data && c.snd.acked <= d.snd.acked
      && Remaining(d) <= Remaining(c)
  {
    hide Coherent, Agrees, Next, Enabled, WellFormed;
    NextKeeps(c, e);
    RemainingNeverGrows(c, e);
    CapacityStep(c, e);
  }

  lemma RemainingIsNat(c: State)
    requires Underway(c)
    ensures Remaining(c) >= 0
  {
    AllAcknowledged(c);
  }

  lemma {:induction false} PlaysReduces(c: State, moves: seq<Move>, d: State)
    requires Underway(c) && Plays(c, moves, d)
    ensures Underway(d) && d.snd.stream.data == c.snd.stream.data && c.snd.acked <= d.snd.acked
    ensures Remaining(d) <= Max(0, Remaining(c) - Turns(moves))
    decreases |moves|
  {
    hide Next, Enabled, Underway, Remaining, Complete, TakesTurn;
    RemainingIsNat(c);
    if moves != [] {
      match moves[0] {
        case Anything(e) =>
          StepReduces(c, e);
          PlaysReduces(Next(c, e), moves[1..], d);
        case Turn =>
          var b: State :| TakesTurn(c, b) && Plays(b, moves[1..], d);
          TurnReduces(c, b);
          PlaysReduces(b, moves[1..], d);
      }
    }
  }

  lemma ReachedUnderway(isn: uint32, sendCapacity: nat, timeout: uint16, receiveCapacity: nat,
      events: seq<Event>, c: State)
    requires 0 < receiveCapacity <= TWO62
    requires Leads(Start(isn, sendCapacity, timeout, receiveCapacity), events, c) && c.snd.stream.ended
    ensures Underway(c)
  {
    hide Leads;
    StartInvariant(isn, sendCapacity, timeout, receiveCapacity);
    RunKeeps(Start(isn, sendCapacity, timeout, receiveCapacity), events, c);
    CapacityKept(Start(isn, sendCapacity, timeout, receiveCapacity), events, c);
  }

  /** However the steps are scheduled and whatever is lost between them: a schedule with as many turns as sequence
      numbers remain to be received and acknowledged completes the transfer. */
  lemma EnoughTurnsComplete(isn: uint32, sendCapacity: nat, timeout: uint16, receiveCapacity: nat,
      events: seq<Event>, c: State, moves: seq<Move>, d: State)
    requires 0 < receiveCapacity <= TWO62
    requires Leads(Start(isn, sendCapacity, timeout, receiveCapacity), events, c) && c.snd.stream.ended
    requires Plays(c, moves, d) && Turns(moves) >= Remaining(c)
    ensures Complete(d) && d.snd.stream.data == c.snd.stream.data
  {
    hide Leads, Plays, Coherent, Agrees;
    ReachedUnderway(isn, sendCapacity, timeout, receiveCapacity, events, c);
    PlaysReduces(c, moves, d);
    AllAcknowledged(d);
  }

  lemma {:induction false} PlaysOn(c: State, moves: seq<Move>, d: State, e: State)
    requires Plays(c, moves, d) && TakesTurn(d, e)
    ensures Plays(c, moves + [Turn], e)
    decreases |moves|
  {
    hide Next, Enabled, TakesTurn;
    if moves == [] {
      assert [Turn][1..] == [] && Plays(e, [], e);
    } else {
      assert (moves + [Turn])[1..] == moves[1..] + [Turn];
      match moves[0] {
        case Anything(x) => PlaysOn(Next(c, x), moves[1..], d, e);
        case Turn =>
          var b: State :| TakesTurn(c, b) && Plays(b, moves[1..], d);
          PlaysOn(b, moves[1..], d, e);
      }
    }
  }

  /** With at most 2^31 sequence numbers unacknowledged, sent or not, another turn can always be taken. */
  lemma TurnsNeverBlock(isn: uint32, sendCapacity: nat, timeout: uint16, receiveCapacity: nat,
      events: seq<Event>, c: State, moves: seq<Move>, d: State)
    requires 0 < receiveCapacity <= TWO62
    requires Leads(Start(isn, sendCapacity, timeout, receiveCapacity), events, c) && c.snd.stream.ended
    requires |c.snd.stream.data| + 2 - c.snd.acked <= TWO31 && Plays(c, moves, d)
    ensures exists e: State :: Plays(c, moves + [Turn], e)
  {
    hide Leads, Plays, Coherent, Agrees, TakesTurn, Sender.FillWindow;
    ReachedUnderway(isn, sendCapacity, timeout, receiveCapacity, events, c);
    PlaysReduces(c, moves, d);
    FillWindowOpens(d);
    NextBounded(Next(d, SenderActs(SenderRuns.FillWindow)));
    TurnPossible(d);
    var e: State :| TakesTurn(d, e);
    PlaysOn(c, moves, d, e);
  }
}
