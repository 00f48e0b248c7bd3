/** Runs that lead to the places where the code does not do what one would expect. */
module Witnesses {
  import opened Widths
  import opened WrappingIntegers
  import opened ByteStreams
  import opened Segments
  import opened SegmentCodec
  import opened Timers
  import opened Reassembly
  import opened ReassemblyTheory
  import opened Receiving
  import opened Sending
  import opened SenderInvariant
  import SenderRuns
  import opened FillWindowTheory
  import opened Connection
  import opened Progress
  import opened DeadEnd

  // ---------------------------------------------------------------------------
  // Two acknowledgments that overtake each other shrink the window under what is in flight
  // ---------------------------------------------------------------------------

  const DATA: seq<byte> := [7, 8, 9, 10]
  const SYN: Segment := Syn(0)
  const FIRST: Segment := DataSegment(0, 1, [7, 8], false)
  const SECOND: Segment := DataSegment(0, 3, [9, 10], false)

  /** The sender of this run; its timer runs from zero while something is outstanding. */
  function Snd(written: seq<byte>, nread: nat, next: nat, acked: nat, window: uint16,
      outstanding: seq<Segment>, out: seq<Segment>): Sender
  {
    Sender(0, Stream(4, written, nread, false, false), next, acked, window, outstanding, out,
           Timer(outstanding != [], 0, 1000, 1000), 0, false)
  }

  function Rcv(data: seq<byte>, nread: nat): Receiver {
    Receiver(Assembler(Stream(2, data, nread, false, false), map[], None), Some(0))
  }

  lemma SmallNumbers()
    ensures Wrap(0, 0) == 0 && Wrap(1, 0) == 1 && Wrap(3, 0) == 3
    ensures Unwrap(0, 0, 1) == 0 && Unwrap(1, 0, 1) == 1
    ensures Unwrap(1, 0, 3) == 1 && Unwrap(3, 0, 3) == 3 && Unwrap(3, 0, 5) == 3
  {
    UnwrapWrap(0, 0, 1);
    UnwrapWrap(1, 0, 1);
    UnwrapWrap(1, 0, 3);
    UnwrapWrap(3, 0, 3);
    UnwrapWrap(3, 0, 5);
  }

  lemma SynGoesOut()
    ensures Closed(0, 4, 1000).FillWindow() == Snd([], 0, 1, 0, 1, [SYN], [SYN])
  {
    hide Wrap;
    var s := Closed(0, 4, 1000);
    assert s.SendOne() == Snd([], 0, 1, 0, 1, [SYN], [SYN]);
  }

  lemma SynAcknowledged()
    ensures Snd([], 0, 1, 0, 1, [SYN], [SYN]).AckReceived(1, 2) == Snd([], 0, 1, 1, 2, [], [SYN])
  {
    hide Unwrap, Wrap;
    SmallNumbers();
    assert CountAcked([SYN], 0, 1, 1) == 1;
  }

  lemma FirstGoesOut()
    ensures Snd(DATA, 0, 1, 1, 2, [], [SYN]).FillWindow() == Snd(DATA, 2, 3, 1, 2, [FIRST], [SYN, FIRST])
  {
    hide Wrap;
    var s := Snd(DATA, 0, 1, 1, 2, [], [SYN]);
    assert s.PayloadSize() == 2;
    assert s.stream.Buffer()[..2] == [7, 8];
    assert s.SendOne() == Snd(DATA, 2, 3, 1, 2, [FIRST], [SYN, FIRST]);
  }

  lemma FirstAcknowledged()
    ensures Snd(DATA, 2, 3, 1, 2, [FIRST], [SYN, FIRST]).AckReceived(3, 2) == Snd(DATA, 2, 3, 3, 2, [], [SYN, FIRST])
  {
    hide Unwrap, Wrap;
    SmallNumbers();
    assert CountAcked([FIRST], 0, 3, 3) == 1;
  }

  lemma SecondGoesOut()
    ensures Snd(DATA, 2, 3, 3, 2, [], [SYN, FIRST]).FillWindow()
         == Snd(DATA, 4, 5, 3, 2, [SECOND], [SYN, FIRST, SECOND])
  {
    hide Wrap;
    var s := Snd(DATA, 2, 3, 3, 2, [], [SYN, FIRST]);
    assert s.PayloadSize() == 2;
    assert s.stream.Buffer()[..2] == [9, 10];
    assert s.SendOne() == Snd(DATA, 4, 5, 3, 2, [SECOND], [SYN, FIRST, SECOND]);
  }

  lemma WindowShrinks()
    ensures Snd(DATA, 4, 5, 3, 2, [SECOND], [SYN, FIRST, SECOND]).AckReceived(3, 0)
         == Snd(DATA, 4, 5, 3, 0, [SECOND], [SYN, FIRST, SECOND])
  {
    hide Unwrap, Wrap;
    SmallNumbers();
    assert CountAcked([SECOND], 0, 5, 3) == 0;
  }

  /** Pushing the very next bytes, with room for them and nothing else stored, appends them to the output. */
  lemma PushInOrder(a: Assembler, data: seq<byte>)
    requires a.Valid() && a.pending == map[] && a.eof == None && |data| <= a.out.Room() && |a.out.data| < TWO64
    ensures a.Push(data, |a.out.data|, false) == a.(out := a.out.(data := a.out.data + data))
  {
    var from, m := |a.out.data|, a.Accept(data, |a.out.data|);
    PushShape(a, data, from, false);
    assert forall p: nat :: p in m <==> from <= p < from + |data|;
    GapUnique(m.Keys, from, from + |data|);
    hide Gap, Assembler.Push;
    assert Stretch(m, from, from + |data|) == data;
    assert Beyond(m, from + |data|) == map[];
  }

  /** Delivering a segment that is due, on a stream short enough for everything to be timely. */
  lemma DeliverDue(c: State, i: nat, lo: nat)
    requires Invariant(c) && |c.snd.stream.data| + 2 <= TWO31 && i < |c.snd.out|
    requires var seg := c.snd.out[i];
      && Carries(seg, c.snd.isn, Sent(c.snd), c.snd.finSent, lo) && seg.Length() > 0 && !seg.header.fin
      && |c.rcv.asm.out.data| == (if seg.header.syn then 0 else lo - 1)
      && (c.rcv.isn.None? ==> seg.header.syn)
      && |seg.payload| <= c.rcv.Window()
    requires c.rcv.asm.pending == map[] && c.rcv.asm.eof == None
    ensures Enabled(c, DeliverSegment(i, 0))
    ensures var out := c.rcv.asm.out;
      Next(c, DeliverSegment(i, 0)) == c.(rcv :=
        Receiver(c.rcv.asm.(out := out.(data := out.data + c.snd.out[i].payload)), Some(c.snd.isn)))
  {
    hide Coherent, Wrap, OverTheWire, Receiver.Receive, Assembler.Push, SegmentChecksum;
    var seg := c.snd.out[i];
    var got := seg.(header := seg.header.(cksum := SegmentChecksum(seg, 0)));
    TimelyWhenShort(c);
    WireDelivers(seg, 0);
    FilledInCarries(seg, got.header.cksum, c.snd.isn, Sent(c.snd), c.snd.finSent, lo);
    ReceiveAt(c.rcv, got, c.snd.isn, Sent(c.snd), c.snd.finSent, lo);
    PushInOrder(c.rcv.asm, seg.payload);
  }

  /** One step of a run, with its outcome. */
  ghost predicate Takes(c: State, e: Event, d: State) {
    Enabled(c, e) && Next(c, e) == d
  }

  lemma Extended(b: State, events: seq<Event>, c: State, e: Event, d: State)
    requires Leads(b, events, c) && Takes(c, e, d) && Invariant(c)
    ensures Leads(b, events + [e], d) && Invariant(d)
  {
    hide Leads, Next, Enabled, Invariant;
    LeadsOne(c, e);
    LeadsConcat(b, events, c, [e], d);
    NextKeeps(c, e);
  }

  lemma TakesAck(c: State, j: nat)
    requires Invariant(c) && |c.snd.stream.data| + 2 <= TWO31 && j < |c.acks|
    ensures c.snd.next < TWO62
    ensures Takes(c, DeliverAck(j), c.(snd := c.snd.AckReceived(c.acks[j].ackno, c.acks[j].win)))
  {
    hide Coherent, Agrees, Sender.AckReceived, AcksAreSafe;
    TimelyWhenShort(c);
    NextBounded(c);
  }

  lemma TakesSender(c: State, x: SenderRuns.Event)
    requires Invariant(c) && !x.Ack? && SenderRuns.Allowed(c.snd, x)
    requires x.Write? ==> |c.snd.stream.data| + |x.data| <= TWO60
    ensures Takes(c, SenderActs(x), c.(snd := SenderRuns.Apply(c.snd, x)))
  {
    hide Coherent, Agrees, SenderRuns.Apply;
  }

  lemma TakesEmit(c: State)
    requires Invariant(c) && c.rcv.isn.Some?
    ensures Takes(c, EmitAck, c.(acks :=
      c.acks + [AckMessage(Wrap(c.rcv.AbsoluteAck(), c.rcv.isn.value), Min(c.rcv.Window(), 65535))]))
  {
    hide Coherent, Agrees, Wrap;
  }

  /** The states of the run, in order. The receiver has room for two bytes. */
  const C0: State := Start(0, 4, 1000, 2)
  const C1: State := State(Snd([], 0, 1, 0, 1, [SYN], [SYN]), Listening(2), [])
  const C2: State := C1.(rcv := Rcv([], 0))
  const C3: State := C2.(acks := [AckMessage(1, 2)])
  const C4: State := C3.(snd := Snd([], 0, 1, 1, 2, [], [SYN]))
  const C5: State := C4.(snd := Snd(DATA, 0, 1, 1, 2, [], [SYN]))
  const C6: State := C5.(snd := Snd(DATA, 2, 3, 1, 2, [FIRST], [SYN, FIRST]))
  const C7: State := C6.(rcv := Rcv([7, 8], 0))
  const C8: State := C7.(acks := [AckMessage(1, 2), AckMessage(3, 0)])
  const C9: State := C8.(rcv := Rcv([7, 8], 2))
  const C10: State := C9.(acks := [AckMessage(1, 2), AckMessage(3, 0), AckMessage(3, 2)])
  const C11: State := C10.(snd := Snd(DATA, 2, 3, 3, 2, [], [SYN, FIRST]))
  const C12: State := C11.(snd := Snd(DATA, 4, 5, 3, 2, [SECOND], [SYN, FIRST, SECOND]))
  const C13: State := C12.(snd := Snd(DATA, 4, 5, 3, 0, [SECOND], [SYN, FIRST, SECOND]))

  lemma Step0()
    requires Invariant(C0)
    ensures Takes(C0, SenderActs(SenderRuns.FillWindow), C1)
  {
    hide Invariant, Takes, Sender.FillWindow;
    SynGoesOut();
    TakesSender(C0, SenderRuns.FillWindow);
  }

  lemma Step1()
    requires Invariant(C1)
    ensures Takes(C1, DeliverSegment(0, 0), C2)
  {
    hide Invariant, Enabled, Next, Wrap, Unwrap;
    SmallNumbers();
    assert Carries(SYN, 0, Sent(C1.snd), false, 0);
    DeliverDue(C1, 0, 0);
  }

  lemma Step2()
    requires Invariant(C2)
    ensures Takes(C2, EmitAck, C3)
  {
    hide Invariant, Takes, Wrap, Unwrap;
    SmallNumbers();
    assert C2.rcv.AbsoluteAck() == 1 && C2.rcv.Window() == 2;
    assert C2.acks + [AckMessage(1, 2)] == C3.acks;
    TakesEmit(C2);
  }

  lemma Step3()
    requires Invariant(C3)
    ensures Takes(C3, DeliverAck(0), C4)
  {
    hide Invariant, Takes, Sender.AckReceived;
    SynAcknowledged();
    TakesAck(C3, 0);
  }

  lemma Step4()
    requires Invariant(C4)
    ensures Takes(C4, SenderActs(SenderRuns.Write(DATA)), C5)
  {
    hide Invariant, Takes;
    assert C4.snd.stream.Write(DATA) == C5.snd.stream;
    TakesSender(C4, SenderRuns.Write(DATA));
  }

  lemma Step5()
    requires Invariant(C5)
    ensures Takes(C5, SenderActs(SenderRuns.FillWindow), C6)
  {
    hide Invariant, Takes, Sender.FillWindow;
    FirstGoesOut();
    TakesSender(C5, SenderRuns.FillWindow);
  }

  lemma Step6()
    requires Invariant(C6)
    ensures Takes(C6, DeliverSegment(1, 0), C7)
  {
    hide Invariant, Enabled, Next, Wrap, Unwrap;
    SmallNumbers();
    assert Sent(C6.snd) == [7, 8];
    assert Carries(FIRST, 0, Sent(C6.snd), false, 1);
    DeliverDue(C6, 1, 1);
  }

  lemma Step7()
    requires Invariant(C7)
    ensures Takes(C7, EmitAck, C8)
  {
    hide Invariant, Takes, Wrap, Unwrap;
    SmallNumbers();
    assert C7.rcv.AbsoluteAck() == 3 && C7.rcv.Window() == 0;
    assert C7.acks + [AckMessage(3, 0)] == C8.acks;
    TakesEmit(C7);
  }

  lemma Step8()
    requires Invariant(C8)
    ensures Takes(C8, AppReads(2), C9)
  {
    hide Coherent, Agrees, Promised;
  }

  lemma Step9()
    requires Invariant(C9)
    ensures Takes(C9, EmitAck, C10)
  {
    hide Invariant, Takes, Wrap, Unwrap;
    SmallNumbers();
    assert C9.rcv.AbsoluteAck() == 3 && C9.rcv.Window() == 2;
    assert C9.acks + [AckMessage(3, 2)] == C10.acks;
    TakesEmit(C9);
  }

  lemma Step10()
    requires Invariant(C10)
    ensures Takes(C10, DeliverAck(2), C11)
  {
    hide Invariant, Takes, Sender.AckReceived;
    FirstAcknowledged();
    TakesAck(C10, 2);
  }

  lemma Step11()
    requires Invariant(C11)
    ensures Takes(C11, SenderActs(SenderRuns.FillWindow), C12)
  {
    hide Invariant, Takes, Sender.FillWindow;
    SecondGoesOut();
    TakesSender(C11, SenderRuns.FillWindow);
  }

  lemma Step12()
    requires Invariant(C12)
    ensures Takes(C12, DeliverAck(1), C13)
  {
    hide Invariant, Takes, Sender.AckReceived;
    WindowShrinks();
    TakesAck(C12, 1);
  }

  /** The older of two acknowledgments of the same position arrives last and takes the window back. */
  lemma WindowShrinksUnderFlight() returns (events: seq<Event>)
    ensures Leads(C0, events, C13) && Invariant(C13) && Overfull(C13.snd)
  {
    hide Leads, Takes, Invariant, C0, C1, C2, C3, C4, C5, C6, C7, C8, C9, C10, C11, C12;
    events := FirstHalf();
    Step7();
    Extended(C0, events, C7, EmitAck, C8);
    events := events + [EmitAck];
    Step8();
    Extended(C0, events, C8, AppReads(2), C9);
    events := events + [AppReads(2)];
    Step9();
    Extended(C0, events, C9, EmitAck, C10);
    events := events + [EmitAck];
    Step10();
    Extended(C0, events, C10, DeliverAck(2), C11);
    events := events + [DeliverAck(2)];
    Step11();
    Extended(C0, events, C11, SenderActs(SenderRuns.FillWindow), C12);
    events := events + [SenderActs(SenderRuns.FillWindow)];
    Step12();
    Extended(C0, events, C12, DeliverAck(1), C13);
    events := events + [DeliverAck(1)];
    assert Overfull(C13.snd) by { OverfullAtLast(); }
  }

  lemma FirstHalf() returns (events: seq<Event>)
    ensures Leads(C0, events, C7) && Invariant(C7)
  {
    hide Leads, Takes, Invariant, C1, C2, C3, C4, C5, C6, C7;
    StartInvariant(0, 4, 1000, 2);
    LeadsNothing(C0);
    Step0();
    Extended(C0, [], C0, SenderActs(SenderRuns.FillWindow), C1);
    events := [] + [SenderActs(SenderRuns.FillWindow)];
    Step1();
    Extended(C0, events, C1, DeliverSegment(0, 0), C2);
    events := events + [DeliverSegment(0, 0)];
    Step2();
    Extended(C0, events, C2, EmitAck, C3);
    events := events + [EmitAck];
    Step3();
    Extended(C0, events, C3, DeliverAck(0), C4);
    events := events + [DeliverAck(0)];
    Step4();
    Extended(C0, events, C4, SenderActs(SenderRuns.Write(DATA)), C5);
    events := events + [SenderActs(SenderRuns.Write(DATA))];
    Step5();
    Extended(C0, events, C5, SenderActs(SenderRuns.FillWindow), C6);
    events := events + [SenderActs(SenderRuns.FillWindow)];
    Step6();
    Extended(C0, events, C6, DeliverSegment(1, 0), C7);
    events := events + [DeliverSegment(1, 0)];
  }

  lemma OverfullAtLast()
    ensures Overfull(C13.snd)
  {
  }

  /** From the start, over a window that shrinks and a writer that goes on: a sender that no run can bring to an end. */
  lemma DeadEndReached()
    ensures exists events: seq<Event>, c: State ::
      Leads(Start(0, 4, 1000, 2), events, c) && Doomed(c.snd) && NeverCompletes(c)
  {
    hide Leads, Invariant, NeverCompletes, C13;
    var first := WindowShrinksUnderFlight();
    SmallAtLast();
    var middle, b := PutInFlight(C13, TWO31 + 1);
    var end := SenderActs(SenderRuns.EndInput);
    EndPastHalf(b);
    LeadsConcat(C0, first, C13, middle, b);
    LeadsOne(b, end);
    LeadsConcat(C0, first + middle, b, [end], Next(b, end));
    NextKeeps(b, end);
    DoomedNeverCompletes(Next(b, end));
  }

  lemma SmallAtLast()
    ensures C13.snd.Valid() && C13.snd.InFlight() == 2 && |C13.snd.stream.data| == 4 && C13.snd.outstanding == [SECOND]
  {
  }

  // ---------------------------------------------------------------------------
  // The sender's own view
  // ---------------------------------------------------------------------------

  /** What the sender sees of a run of the whole machine. */
  ghost function SenderView(c: State, events: seq<Event>): seq<SenderRuns.Event>
    decreases |events|
  {
    if events == [] || !Enabled(c, events[0]) then [] else
    var rest := SenderView(Next(c, events[0]), events[1..]);
    match events[0]
    case SenderActs(x) => [x] + rest
    case DeliverAck(j) => [SenderRuns.Ack(c.acks[j].ackno, c.acks[j].win)] + rest
    case _ => rest
  }

  lemma SenderLeadsCons(s: Sender, x: SenderRuns.Event, rest: seq<SenderRuns.Event>, t: Sender)
    requires s.Valid() && SenderRuns.Allowed(s, x) && SenderRuns.Leads(SenderRuns.Apply(s, x), rest, t)
    ensures SenderRuns.Leads(s, [x] + rest, t)
  {
    hide SenderRuns.Apply, SenderRuns.Allowed;
    assert ([x] + rest)[1..] == rest;
  }

  /** Every run of the whole machine is a run of its sender. */
  lemma {:induction false} SenderProjection(c: State, events: seq<Event>, d: State)
    requires Leads(c, events, d) && c.snd.Valid()
    ensures SenderRuns.Leads(c.snd, SenderView(c, events), d.snd)
    decreases |events|
  {
    hide OverTheWire, SenderRuns.Apply, TimelySegment, Sender.AckReceived, AcksAreSafe;
    if events != [] {
      var b := Next(c, events[0]);
      SenderProjection(b, events[1..], d);
      match events[0] {
        case SenderActs(x) => SenderLeadsCons(c.snd, x, SenderView(b, events[1..]), d.snd);
        case DeliverAck(j) =>
          AckApplies(c.snd, c.acks[j].ackno, c.acks[j].win);
          SenderLeadsCons(c.snd, SenderRuns.Ack(c.acks[j].ackno, c.acks[j].win), SenderView(b, events[1..]), d.snd);
        case DeliverSegment(i, pseudo) =>
        case AppReads(n) =>
        case EmitAck =>
      }
    }
  }

  lemma AckApplies(s: Sender, ackno: uint32, win: uint16)
    requires s.Valid() && SenderRuns.Allowed(s, SenderRuns.Ack(ackno, win))
    ensures SenderRuns.Apply(s, SenderRuns.Ack(ackno, win)) == s.AckReceived(ackno, win)
  {
  }

  /** More than 2^31 sequence numbers can come to be in flight, where acknowledgments remove nothing. */
  lemma BeyondHalfReached()
    ensures exists events: seq<SenderRuns.Event>, s: Sender ::
      SenderRuns.Leads(Closed(0, 4, 1000), events, s) && Doomed(s)
  {
    hide Leads, Doomed, NeverCompletes, SenderRuns.Leads;
    DeadEndReached();
    var events: seq<Event>, c: State :| Leads(C0, events, c) && Doomed(c.snd);
    SenderProjection(C0, events, c);
  }

  /** An acknowledgment of `ackno` removes the oldest segment and moves the acknowledged position past others. */
  ghost predicate Forgets(s: Sender, ackno: uint32) {
    && s.Valid() && s.next < TWO62 && s.outstanding != []
    && var t := s.AckReceived(ackno, 0);
       t.outstanding == s.outstanding[1..] && t.acked > s.acked + s.outstanding[0].Length() && !Coherent(t)
  }

  /** A little more than a whole turn in flight: the oldest segment is read back as one of those just sent. */
  lemma PastOneTurn(c: State)
    requires Invariant(c) && c.snd.outstanding != [] && c.snd.outstanding[0] == SECOND
    requires c.snd.InFlight() == TWO32 + 2
    ensures exists ackno: uint32 :: Forgets(c.snd, ackno)
  {
    NextBounded(c);
    hide Coherent, Agrees, AcksAreSafe, Sender.AckReceived;
    SafeExactly(c.snd);
    var ackno := UnsafeAckPopsFront(c.snd);
    GapInTiling(c.snd, c.snd.AckReceived(ackno, 0));
    assert Forgets(c.snd, ackno);
  }

  /** More than 2^32 sequence numbers can come to be in flight, where an acknowledgment makes the sender lose track. */
  lemma UnsafeAckReached()
    ensures exists events: seq<SenderRuns.Event>, s: Sender, ackno: uint32 ::
      SenderRuns.Leads(Closed(0, 4, 1000), events, s) && Forgets(s, ackno)
  {
    hide Leads, Invariant, Overfull, Forgets, SenderRuns.Leads, C13;
    var first := WindowShrinksUnderFlight();
    SmallAtLast();
    var more, c := PutInFlight(C13, TWO32 + 2);
    LeadsConcat(C0, first, C13, more, c);
    SenderProjection(C0, first + more, c);
    PastOneTurn(c);
  }

  /** More can come to be in flight than the window allows: the window shrinks under what was sent. */
  lemma OverfullReached()
    ensures exists events: seq<SenderRuns.Event>, s: Sender ::
      SenderRuns.Leads(Closed(0, 4, 1000), events, s) && Overfull(s)
  {
    hide Leads, Overfull, SenderRuns.Leads, C13;
    var events := WindowShrinksUnderFlight();
    SenderProjection(C0, events, C13);
  }

  /** A sender past its FIN with room in its stream: one more byte takes the derived state back. */
  lemma WriteAfterFinReached()
    ensures exists events: seq<SenderRuns.Event>, s: Sender ::
      && SenderRuns.Leads(Closed(0, 4, 1000), events, s) && s.Valid()
      && SenderRuns.Summary(s) == SenderRuns.FinSent && SenderRuns.Summary(s.Write([7])) == SenderRuns.SynAcked
  {
    hide Wrap, Unwrap, Sender.FillWindow, Sender.AckReceived, SenderRuns.Summary, SenderRuns.Leads;
    var s1 := Snd([], 0, 1, 0, 1, [SYN], [SYN]);
    var s2 := Snd([], 0, 1, 1, 2, [], [SYN]);
    var s3 := s2.EndInput();
    var s4 := s3.FillWindow();
    SynGoesOut();
    SynAcknowledged();
    FinGoesOut(s3);
    SenderRuns.LeadsNothing(s4);
    SenderLeadsCons(s3, SenderRuns.FillWindow, [], s4);
    SenderLeadsCons(s2, SenderRuns.EndInput, [SenderRuns.FillWindow] + [], s4);
    SenderLeadsCons(s1, SenderRuns.Ack(1, 2), [SenderRuns.EndInput] + ([SenderRuns.FillWindow] + []), s4);
    SenderLeadsCons(Closed(0, 4, 1000), SenderRuns.FillWindow,
      [SenderRuns.Ack(1, 2)] + ([SenderRuns.EndInput] + ([SenderRuns.FillWindow] + [])), s4);
  }

  lemma FinGoesOut(s: Sender)
    requires s == Snd([], 0, 1, 1, 2, [], [SYN]).EndInput()
    ensures s.FillWindow() == s.SendOne()
    ensures SenderRuns.Summary(s.FillWindow()) == SenderRuns.FinSent
    ensures SenderRuns.Summary(s.FillWindow().Write([7])) == SenderRuns.SynAcked
  {
    hide Wrap;
    assert s.PayloadSize() == 0;
    var t := s.SendOne();
    assert t.finSent && t.next == 2 && t.acked == 1;
    assert t.FillWindow() == t;
  }
}
