/** The stream arrives as it was written, or not at all, whatever acknowledgments the sender gets. */
module Integrity {
  import opened Widths
  import opened WrappingIntegers
  import opened ReassemblyTheory
  import opened Receiving
  import opened Sending
  import opened SenderInvariant
  import SenderRuns
  import opened Connection

  // ---------------------------------------------------------------------------
  // The machine with unconstrained acknowledgments
  // ---------------------------------------------------------------------------

  /** Any acknowledgment may arrive at any time: one that was emitted, however old, or one that never was. */
  ghost predicate Possible(c: State, e: Event) {
    match e
    case SenderActs(Ack(_, _)) => WellFormed(c) && c.snd.next < TWO64
    case DeliverAck(j) => WellFormed(c) && c.snd.next < TWO64 && j < |c.acks|
    case _ => Enabled(c, e)
  }

  ghost function After(c: State, e: Event): State
    requires Possible(c, e)
  {
    match e
    case SenderActs(Ack(ackno, win)) => c.(snd := c.snd.AckReceived(ackno, win))
    case DeliverAck(j) => c.(snd := c.snd.AckReceived(c.acks[j].ackno, c.acks[j].win))
    case _ => Next(c, e)
  }

  ghost predicate Runs(c: State, events: seq<Event>, d: State)
    decreases |events|
  {
    if events == [] then d == c
    else Possible(c, events[0]) && Runs(After(c, events[0]), events[1..], d)
  }

  /** Every run with timely acknowledgments is one of these. */
  lemma {:induction false} TimelyRunsAreRuns(c: State, events: seq<Event>, d: State)
    requires Leads(c, events, d)
    ensures Runs(c, events, d)
    decreases |events|
  {
    hide TimelySegment, TimelyAck, WellFormed, SenderRuns.Apply, OverTheWire;
    if events != [] {
      TimelyRunsAreRuns(Next(c, events[0]), events[1..], d);
    }
  }

  // ---------------------------------------------------------------------------
  // A sender that has sent nothing but the truth
  // ---------------------------------------------------------------------------

  /** Every segment ever sent or still to be resent is a true one. Nothing is said of what is acknowledged. */
  ghost predicate Truthful(s: Sender) {
    && s.Valid() && Counted(s)
    && (forall seg :: seg in s.out ==> Genuine(seg, s))
    && (forall seg :: seg in s.outstanding ==> Genuine(seg, s))
  }

  /** What was sent stays sent. */
  predicate Onward(s: Sender, t: Sender)
    requires s.Valid() && t.Valid()
  {
    Grows(Sent(s), s.finSent, Sent(t), t.finSent) && t.isn == s.isn && s.next <= t.next
  }

  /** A step that sends nothing but a true segment, or one that was outstanding before. */
  lemma StaysTruthful(s: Sender, t: Sender)
    requires Truthful(s) && t.Valid() && Counted(t) && Onward(s, t)
    requires forall seg :: seg in t.out || seg in t.outstanding ==>
      seg in s.out || seg in s.outstanding || Genuine(seg, t)
    ensures Truthful(t)
  {
    hide Carries, SentAt, Genuine, Grows, Sent, Counted;
    forall seg | seg in t.out || seg in t.outstanding
      ensures Genuine(seg, t)
    {
      if seg in s.out || seg in s.outstanding {
        GenuineGrows(seg, s, t);
      }
    }
  }

  lemma SendOneTruthful(s: Sender)
    requires Truthful(s) && !s.Stuck()
    ensures Truthful(s.SendOne()) && Onward(s, s.SendOne())
  {
    hide Wrap, Carries;
    var t := s.SendOne();
    SendOneCarries(s);
    assert SentAt(t.out[|s.out|], t, s.next);
    StaysTruthful(s, t);
  }

  lemma {:induction false} FillWindowTruthful(s: Sender)
    requires Truthful(s)
    ensures Truthful(s.FillWindow()) && Onward(s, s.FillWindow())
    decreases s.Work()
  {
    hide Genuine, Counted, Sender.SendOne, Sender.Stuck, Sender.Work, Sent;
    if !s.Stuck() {
      SendOneTruthful(s);
      s.SendOneReducesWork();
      if s.SendOne().WindowOpen() {
        FillWindowTruthful(s.SendOne());
      }
    }
  }

  lemma AckTruthful(s: Sender, ackno: uint32, win: uint16)
    requires Truthful(s) && s.next < TWO64
    ensures Truthful(s.AckReceived(ackno, win)) && Onward(s, s.AckReceived(ackno, win))
    ensures s.AckReceived(ackno, win).stream == s.stream
  {
    hide Genuine, Unwrap, EndOf, CountAcked;
    StaysTruthful(s, s.AckReceived(ackno, win));
  }

  lemma TickTruthful(s: Sender, ms: uint64)
    requires Truthful(s)
    ensures Truthful(s.Tick(ms)) && Onward(s, s.Tick(ms))
  {
    hide Genuine;
    StaysTruthful(s, s.Tick(ms));
  }

  lemma WriterTruthful(s: Sender, x: SenderRuns.Event)
    requires Truthful(s) && SenderRuns.Allowed(s, x) && (x.Write? || x.EndInput? || x.SendEmpty?)
    ensures var t := SenderRuns.Apply(s, x);
      Truthful(t) && Onward(s, t)
  {
    hide Wrap;
    var t := SenderRuns.Apply(s, x);
    assert Sent(t) == Sent(s);
    if x.SendEmpty? {
      assert SentAt(t.out[|s.out|], t, t.next);
    }
    hide Carries, Genuine;
    StaysTruthful(s, t);
  }

  lemma ApplyTruthful(s: Sender, x: SenderRuns.Event)
    requires Truthful(s) && SenderRuns.Allowed(s, x) && !x.Ack?
    ensures var t := SenderRuns.Apply(s, x);
      Truthful(t) && Onward(s, t)
  {
    hide Truthful, Onward, Sender.FillWindow, Sender.Tick;
    match x {
      case FillWindow => FillWindowTruthful(s);
      case Tick(ms) => TickTruthful(s, ms);
      case _ => WriterTruthful(s, x);
    }
  }

  // ---------------------------------------------------------------------------
  // Safety
  // ---------------------------------------------------------------------------

  ghost predicate Honest(c: State) {
    WellFormed(c) && Truthful(c.snd) && Follows(c.rcv, c.snd)
  }

  lemma FollowsOnward(r: Receiver, s: Sender, t: Sender)
    requires s.Valid() && t.Valid() && Follows(r, s) && Onward(s, t)
    ensures Follows(r, t)
  {
    hide Agrees, Sent;
    AgreesGrows(r.asm, Sent(s), s.finSent, Sent(t), t.finSent);
  }

  lemma AfterHonest(c: State, e: Event)
    requires Honest(c) && Possible(c, e)
    ensures Honest(After(c, e))
  {
    hide Truthful, Follows, Onward, OverTheWire, SenderRuns.Apply, Sender.AckReceived;
    TruthfulMeans(c.snd);
    match e {
      case SenderActs(Ack(ackno, win)) =>
        AckTruthful(c.snd, ackno, win);
        FollowsOnward(c.rcv, c.snd, After(c, e).snd);
      case SenderActs(x) =>
        ApplyTruthful(c.snd, x);
        DataWritten(c.snd, x);
        FollowsOnward(c.rcv, c.snd, After(c, e).snd);
      case DeliverAck(j) =>
        AckTruthful(c.snd, c.acks[j].ackno, c.acks[j].win);
        FollowsOnward(c.rcv, c.snd, After(c, e).snd);
      case DeliverSegment(i, pseudo) => DeliveryFollows(c, i, pseudo);
      case AppReads(n) => ReadFollows(c.rcv, c.snd, n);
      case EmitAck =>
    }
  }

  lemma TruthfulMeans(s: Sender)
    requires Truthful(s)
    ensures s.Valid() && forall seg :: seg in s.out ==> Genuine(seg, s)
  {
  }

  lemma ReadFollows(r: Receiver, s: Sender, n: nat)
    requires r.Valid() && s.Valid() && Follows(r, s)
    ensures r.Read(n).Valid() && Follows(r.Read(n), s) && r.Read(n).asm.out.capacity == r.asm.out.capacity
  {
    hide Agrees, Receiver.Read;
    ReadExtends(r, n);
  }

  lemma {:induction false} RunHonest(c: State, events: seq<Event>, d: State)
    requires Honest(c) && Runs(c, events, d)
    ensures Honest(d)
    decreases |events|
  {
    hide Honest, Possible, After;
    if events != [] {
      AfterHonest(c, events[0]);
      RunHonest(After(c, events[0]), events[1..], d);
    }
  }

  lemma StartHonest(isn: uint32, sendCapacity: nat, timeout: uint16, receiveCapacity: nat)
    requires receiveCapacity <= TWO62
    ensures Honest(Start(isn, sendCapacity, timeout, receiveCapacity))
  {
  }

  // --- what was written ----------------------------------------------------------

  /** What the writer hands over during the run, each write cut to the room there is at that moment. */
  ghost function Written(c: State, events: seq<Event>): seq<byte>
    decreases |events|
  {
    if events == [] || !Possible(c, events[0]) then []
    else Handed(c, events[0]) + Written(After(c, events[0]), events[1..])
  }

  /** The front of a write, up to the capacity less what was written and not yet put into segments. */
  ghost function Handed(c: State, e: Event): seq<byte> {
    match e
    case SenderActs(Write(bytes)) =>
      var room := c.snd.stream.capacity - (|c.snd.stream.data| - c.snd.stream.nread);
      if 0 <= room < |bytes| then bytes[..room] else bytes
    case _ => []
  }

  /** A step changes the sender's stream by what is handed over, and its end is the writer's doing. */
  lemma StreamStep(c: State, e: Event)
    requires Possible(c, e)
    ensures After(c, e).snd.stream.data == c.snd.stream.data + Handed(c, e)
    ensures After(c, e).snd.stream.ended <==> c.snd.stream.ended || e == SenderActs(SenderRuns.EndInput)
  {
    hide OverTheWire, Unwrap, EndOf, CountAcked, TimelySegment, TimelyAck, Sender.FillWindow;
    match e {
      case SenderActs(x) =>
        SenderRuns.FillWindowKeeps(c.snd);
      case _ =>
    }
  }

  lemma {:induction false} StreamIsWritten(c: State, events: seq<Event>, d: State)
    requires Runs(c, events, d)
    ensures d.snd.stream.data == c.snd.stream.data + Written(c, events)
    ensures d.snd.stream.ended <==> c.snd.stream.ended || SenderActs(SenderRuns.EndInput) in events
    decreases |events|
  {
    hide Possible, After, Handed;
    if events == [] {
    } else {
      var e, rest := events[0], events[1..];
      StreamStep(c, e);
      StreamIsWritten(After(c, e), rest, d);
      assert events == [e] + rest;
      assert c.snd.stream.data + Handed(c, e) + Written(After(c, e), rest)
          == c.snd.stream.data + (Handed(c, e) + Written(After(c, e), rest));
    }
  }

  /** Whatever the network does and whatever acknowledgments it makes up, the receiver's output is a prefix of what
      was written, and it has ended only if it is the whole of a stream that the writer has ended. */
  lemma Safety(isn: uint32, sendCapacity: nat, timeout: uint16, receiveCapacity: nat, events: seq<Event>, c: State)
    requires receiveCapacity <= TWO62
    requires Runs(Start(isn, sendCapacity, timeout, receiveCapacity), events, c)
    ensures var written := Written(Start(isn, sendCapacity, timeout, receiveCapacity), events);
      && c.rcv.asm.out.data <= written
      && (c.rcv.asm.out.ended ==> SenderActs(SenderRuns.EndInput) in events && c.rcv.asm.out.data == written)
  {
    hide Runs, Genuine, Written;
    var start := Start(isn, sendCapacity, timeout, receiveCapacity);
    StartHonest(isn, sendCapacity, timeout, receiveCapacity);
    RunHonest(start, events, c);
    StreamIsWritten(start, events, c);
    assert start.snd.stream.data + Written(start, events) == Written(start, events);
  }
}
