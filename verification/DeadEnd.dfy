/** The one way for a transfer to get stuck for good: more than 2^31 sequence numbers in flight. */
module DeadEnd {
  import opened Widths
  import opened ReassemblyTheory
  import opened Sending
  import opened SenderInvariant
  import SenderRuns
  import FillWindowTheory
  import opened Connection
  import opened Progress

  // ---------------------------------------------------------------------------
  // A dead end is never left
  // ---------------------------------------------------------------------------

  /** The stream has ended and more than half a turn is in flight. */
  predicate Doomed(s: Sender) {
    s.Valid() && s.stream.ended && TWO31 < s.InFlight()
  }

  /** The sender only moves bytes from the stream into flight: the FIN finds no open window. */
  lemma DoomedSender(s: Sender, x: SenderRuns.Event)
    requires Doomed(s) && SenderRuns.Allowed(s, x) && !x.Ack? && s.next < TWO63
    ensures Doomed(SenderRuns.Apply(s, x))
  {
    if x.FillWindow? && !s.finSent {
      hide Sender.FillWindow;
      FillWindowTheory.FillWindowOverfull(s);
    }
  }

  lemma DoomedStep(c: State, e: Event)
    requires Invariant(c) && Enabled(c, e) && Doomed(c.snd)
    ensures Doomed(Next(c, e).snd)
  {
    hide Coherent, Agrees, OverTheWire, Sender.AckReceived, SenderRuns.Apply, AcksAreSafe;
    NextBounded(c);
    match e {
      case SenderActs(x) => DoomedSender(c.snd, x);
      case DeliverSegment(i, pseudo) =>
      case AppReads(n) =>
      case EmitAck =>
      case DeliverAck(j) => NothingPopsBeyondHalf(c.snd, c.acks[j].ackno, c.acks[j].win);
    }
  }

  lemma {:induction false} DoomedForever(c: State, events: seq<Event>, d: State)
    requires Invariant(c) && Leads(c, events, d) && Doomed(c.snd)
    ensures Doomed(d.snd) && !Complete(d)
    decreases |events|
  {
    hide Invariant, Next, Enabled;
    if events != [] {
      NextKeeps(c, events[0]);
      DoomedStep(c, events[0]);
      DoomedForever(Next(c, events[0]), events[1..], d);
    }
  }

  ghost predicate NeverCompletes(c: State) {
    forall more: seq<Event>, d: State :: Leads(c, more, d) ==> !Complete(d)
  }

  lemma DoomedNeverCompletes(c: State)
    requires Invariant(c) && Doomed(c.snd)
    ensures NeverCompletes(c)
  {
    hide Leads, Invariant, Complete;
    forall more: seq<Event>, d: State | Leads(c, more, d)
      ensures !Complete(d)
    {
      DoomedForever(c, more, d);
    }
  }

  /** In every reachable state with an ended stream: some run completes the transfer if and only if at most half a
      turn is in flight. */
  lemma CompletableExactly(isn: uint32, sendCapacity: nat, timeout: uint16, receiveCapacity: nat,
      events: seq<Event>, c: State)
    requires 0 < receiveCapacity <= TWO62
    requires Leads(Start(isn, sendCapacity, timeout, receiveCapacity), events, c)
    requires c.snd.Valid() && c.snd.stream.ended
    ensures NeverCompletes(c) <==> c.snd.InFlight() > TWO31
  {
    hide Leads, Invariant, Complete;
    if c.snd.InFlight() <= TWO31 {
      EveryTransferCanBeCompleted(isn, sendCapacity, timeout, receiveCapacity, events, c);
    } else {
      StartInvariant(isn, sendCapacity, timeout, receiveCapacity);
      RunKeeps(Start(isn, sendCapacity, timeout, receiveCapacity), events, c);
      DoomedNeverCompletes(c);
    }
  }

  // ---------------------------------------------------------------------------
  // A dead end can be reached
  // ---------------------------------------------------------------------------

  /** More is in flight than the window allows, nothing waits to be sent, and the writer goes on. */
  predicate Overfull(s: Sender) {
    && s.Valid() && s.next > 0 && !s.finSent && !s.stream.ended && s.stream.capacity > 0
    && s.stream.Buffer() == [] && s.InFlight() > s.EffectiveWindow()
  }

  /** Writing and sending one more byte puts one more byte in flight. */
  lemma OneMoreByte(s: Sender, b: byte)
    requires Overfull(s) && s.next < TWO62
    ensures var t := s.Write([b]).FillWindow();
      && Overfull(t) && t.next == s.next + 1 && t.acked == s.acked
      && |t.stream.data| == |s.stream.data| + 1 && s.outstanding <= t.outstanding
  {
    hide Sender.FillWindow;
    var w := s.Write([b]);
    assert w.stream.Buffer() == [b];
    FillWindowTheory.FillWindowOverfull(w);
  }

  lemma WriteAndSend(c: State, b: byte) returns (d: State)
    requires Invariant(c) && Overfull(c.snd) && |c.snd.stream.data| < TWO60
    ensures Leads(c, [SenderActs(SenderRuns.Write([b])), SenderActs(SenderRuns.FillWindow)], d) && Invariant(d)
    ensures Overfull(d.snd) && d.snd.InFlight() == c.snd.InFlight() + 1
    ensures |d.snd.stream.data| == |c.snd.stream.data| + 1 && c.snd.outstanding <= d.snd.outstanding
  {
    hide Coherent, Agrees, Sender.FillWindow, Overfull, Leads;
    var write, fill := SenderActs(SenderRuns.Write([b])), SenderActs(SenderRuns.FillWindow);
    NextBounded(c);
    OverfullWriter(c.snd);
    NextKeeps(c, write);
    NextKeeps(Next(c, write), fill);
    OneMoreByte(c.snd, b);
    d := Next(Next(c, write), fill);
    LeadsTwo(c, write, fill);
  }

  lemma OverfullWriter(s: Sender)
    requires Overfull(s)
    ensures s.Valid() && !s.stream.ended
  {
  }

  /** Byte by byte, an overfull sender puts as much in flight as its writer likes. */
  lemma {:induction false} PutInFlight(c: State, target: nat) returns (events: seq<Event>, d: State)
    requires Invariant(c) && Overfull(c.snd) && c.snd.InFlight() <= target
    requires |c.snd.stream.data| + (target - c.snd.InFlight()) <= TWO60
    ensures Leads(c, events, d) && Invariant(d) && Overfull(d.snd) && d.snd.InFlight() == target
    ensures c.snd.outstanding <= d.snd.outstanding
    decreases target - c.snd.InFlight()
  {
    hide Invariant, Leads;
    if c.snd.InFlight() == target {
      events, d := [], c;
      LeadsNothing(c);
    } else {
      var b := WriteAndSend(c, 0);
      var rest;
      rest, d := PutInFlight(b, target);
      LeadsConcat(c, [SenderActs(SenderRuns.Write([0])), SenderActs(SenderRuns.FillWindow)], b, rest, d);
      events := [SenderActs(SenderRuns.Write([0])), SenderActs(SenderRuns.FillWindow)] + rest;
    }
  }

  /** Ending the stream past half a turn closes the trap. */
  lemma EndPastHalf(c: State)
    requires Invariant(c) && Overfull(c.snd) && c.snd.InFlight() == TWO31 + 1
    ensures Enabled(c, SenderActs(SenderRuns.EndInput))
    ensures Doomed(Next(c, SenderActs(SenderRuns.EndInput)).snd)
  {
    hide Coherent, Agrees;
  }
}
