/** Every run of a sender: writer, clock and peer act in any order, the peer with arbitrary acknowledgments. */
module SenderRuns {
  import opened Widths
  import opened WrappingIntegers
  import opened Segments
  import opened Timers
  import opened Sending
  import opened SenderInvariant

  datatype Event =
    | Write(data: seq<byte>)
    | EndInput
    | FillWindow
    | Ack(ackno: uint32, win: uint16)
    | Tick(ms: uint64)
    | SendEmpty

  /** The writer does not write after ending the input; an acknowledgment is handled when it is safe, which it is
      with up to 2^32 in flight and may be beyond. */
  predicate Allowed(s: Sender, e: Event)
    requires s.Valid()
  {
    match e
    case Write(_) => !s.stream.ended
    case Ack(_, _) => s.next < TWO62 && AcksAreSafe(s)
    case _ => true
  }

  function Apply(s: Sender, e: Event): (t: Sender)
    requires s.Valid() && Allowed(s, e)
    ensures t.Valid()
  {
    match e
    case Write(data) => s.Write(data)
    case EndInput => s.EndInput()
    case FillWindow => s.FillWindow()
    case Ack(ackno, win) => s.AckReceived(ackno, win)
    case Tick(ms) => s.Tick(ms)
    case SendEmpty => s.SendEmptySegment()
  }

  /** The state after the events, if they are allowed one after the other. */
  ghost predicate Leads(s: Sender, events: seq<Event>, t: Sender)
    requires s.Valid()
    decreases |events|
  {
    if events == [] then t == s
    else Allowed(s, events[0]) && Leads(Apply(s, events[0]), events[1..], t)
  }

  lemma LeadsNothing(s: Sender)
    requires s.Valid()
    ensures Leads(s, [], s)
  {
  }

  // ---------------------------------------------------------------------------
  // The invariant holds in every reachable state
  // ---------------------------------------------------------------------------

  /** The accumulated time stays below a timeout that is not zero. */
  predicate TimerBelow(t: Timer) {
    t.running ==> t.elapsed < t.rto || t.elapsed == t.rto == 0
  }

  ghost predicate Sound(s: Sender) {
    Coherent(s) && TimerBelow(s.timer)
  }

  /** No event takes back an acknowledgment, a FIN or a position that was sent. */
  predicate Later(s: Sender, t: Sender) {
    && s.acked <= t.acked && s.next <= t.next && s.stream.nread <= t.stream.nread
    && s.stream.data <= t.stream.data && s.isn == t.isn && s.timer.initial == t.timer.initial
    && (s.finSent ==> t.finSent && t.next == s.next) && (s.stream.ended ==> t.stream.ended)
    && s.stream.error == t.stream.error
  }

  /** Sending touches neither acknowledgments nor what was written; what goes out is what joins the queue, and it
      starts the timer. */
  predicate SendsOnly(s: Sender, t: Sender) {
    && Later(s, t) && t.acked == s.acked && t.window == s.window && t.stream.data == s.stream.data
    && t.stream.ended == s.stream.ended && t.retransmissions == s.retransmissions
    && t.timer == (if t.outstanding == s.outstanding then s.timer else s.timer.Start())
    && s.outstanding <= t.outstanding && t.out == s.out + t.outstanding[|s.outstanding|..]
  }

  lemma SendOneKeeps(s: Sender)
    requires s.Valid() && !s.Stuck()
    ensures SendsOnly(s, s.SendOne()) && s.outstanding < s.SendOne().outstanding
  {
    hide Wrap;
  }

  lemma {:induction false} FillWindowKeeps(s: Sender)
    requires s.Valid()
    ensures SendsOnly(s, s.FillWindow())
    decreases s.Work()
  {
    hide Sender.SendOne, Sender.Stuck, Sender.Work;
    if !s.Stuck() {
      SendOneKeeps(s);
      s.SendOneReducesWork();
      if s.SendOne().WindowOpen() {
        FillWindowKeeps(s.SendOne());
      }
    }
  }

  lemma ApplyCoherent(s: Sender, e: Event)
    requires Coherent(s) && Allowed(s, e)
    ensures Coherent(Apply(s, e)) && Later(s, Apply(s, e))
  {
    hide Coherent, Sender.FillWindow, Sender.AckReceived, Sender.Tick;
    CoherentIsValid(s);
    match e {
      case Write(data) => WriteCoherent(s, data);
      case EndInput => EndInputCoherent(s);
      case FillWindow => FillWindowCoherent(s); FillWindowKeeps(s);
      case Ack(ackno, win) => AckCoherent(s, ackno, win); AckLater(s, ackno, win);
      case Tick(ms) => TickCoherent(s, ms); TickLater(s, ms);
      case SendEmpty => SendEmptyCoherent(s);
    }
  }

  lemma ApplyTimerBelow(s: Sender, e: Event)
    requires s.Valid() && Allowed(s, e) && TimerBelow(s.timer)
    ensures TimerBelow(Apply(s, e).timer)
  {
    hide Unwrap, Sender.FillWindow, CountAcked;
    if e.FillWindow? {
      FillWindowKeeps(s);
    }
  }

  lemma AckLater(s: Sender, ackno: uint32, win: uint16)
    requires Coherent(s) && s.next < TWO62 && AcksAreSafe(s)
    ensures Later(s, s.AckReceived(ackno, win))
  {
    hide Unwrap, EndOf, Carries;
    var a := Unwrap(ackno, s.isn, s.next);
    if s.InFlight() > TWO31 {
      NothingPopsBeyondHalf(s, ackno, win);
    } else if s.acked <= a <= s.next {
      CountAckedTiled(s.outstanding, s.isn, Sent(s), s.finSent, s.acked, s.next, a);
    }
  }

  lemma TickLater(s: Sender, ms: uint64)
    requires s.Valid()
    ensures Later(s, s.Tick(ms))
  {
  }

  lemma {:induction false} RunSound(s: Sender, events: seq<Event>, t: Sender)
    requires Sound(s) && Leads(s, events, t)
    ensures Sound(t) && Later(s, t)
    decreases |events|
  {
    hide Coherent, Apply;
    CoherentIsValid(s);
    if events != [] {
      ApplyCoherent(s, events[0]);
      ApplyTimerBelow(s, events[0]);
      RunSound(Apply(s, events[0]), events[1..], t);
    }
  }

  /** In every reachable state the queue tiles exactly what is in flight, and the timer agrees with the queue. */
  lemma ReachableSender(isn: uint32, capacity: nat, timeout: uint16, events: seq<Event>, s: Sender)
    requires Leads(Closed(isn, capacity, timeout), events, s)
    ensures s.Valid()
    ensures Tiled(s.outstanding, isn, Sent(s), s.finSent, s.acked, s.next)
    ensures s.InFlight() == Span(s.outstanding)
    ensures s.timer.running <==> s.outstanding != []
    ensures s.outstanding == [] ==> s.InFlight() == 0 && s.retransmissions == 0
    ensures s.timer.running ==> (s.timer.elapsed < s.timer.rto <==> s.timer.rto > 0)
  {
    ClosedIsCoherent(isn, capacity, timeout);
    RunSound(Closed(isn, capacity, timeout), events, s);
    TiledSpan(s.outstanding, isn, Sent(s), s.finSent, s.acked, s.next);
  }

  // ---------------------------------------------------------------------------
  // What a sent header says
  // ---------------------------------------------------------------------------

  /** Apart from sequence number, SYN and FIN the header says nothing: no ports, no options, no other flag. */
  predicate Plain(h: Header) {
    h == Header(0, 0, h.seqno, 0, 5, false, false, false, false, h.syn, h.fin, 0, 0, 0)
  }

  ghost predicate AllPlain(s: Sender) {
    forall seg :: seg in s.out || seg in s.outstanding ==> Plain(seg.header)
  }

  lemma SendOnePlain(s: Sender)
    requires s.Valid() && !s.Stuck() && AllPlain(s)
    ensures AllPlain(s.SendOne())
  {
    hide Wrap;
  }

  lemma {:induction false} FillWindowPlain(s: Sender)
    requires s.Valid() && AllPlain(s)
    ensures AllPlain(s.FillWindow())
    decreases s.Work()
  {
    hide AllPlain, Sender.SendOne, Sender.Stuck, Sender.Work;
    if !s.Stuck() {
      SendOnePlain(s);
      s.SendOneReducesWork();
      if s.SendOne().WindowOpen() {
        FillWindowPlain(s.SendOne());
      }
    }
  }

  lemma ApplyPlain(s: Sender, e: Event)
    requires s.Valid() && Allowed(s, e) && AllPlain(s)
    ensures AllPlain(Apply(s, e))
  {
    hide Wrap, Unwrap, EndOf, CountAcked, Sender.FillWindow;
    if e.FillWindow? {
      FillWindowPlain(s);
    }
  }

  lemma {:induction false} RunPlain(s: Sender, events: seq<Event>, t: Sender)
    requires s.Valid() && AllPlain(s) && Leads(s, events, t)
    ensures AllPlain(t)
    decreases |events|
  {
    hide AllPlain, Apply, Allowed;
    if events != [] {
      ApplyPlain(s, events[0]);
      RunPlain(Apply(s, events[0]), events[1..], t);
    }
  }

  /** Every header ever sent is a plain one. */
  lemma SentHeadersArePlain(isn: uint32, capacity: nat, timeout: uint16, events: seq<Event>, s: Sender, i: nat)
    requires Leads(Closed(isn, capacity, timeout), events, s) && i < |s.out|
    ensures Plain(s.out[i].header)
  {
    RunPlain(Closed(isn, capacity, timeout), events, s);
  }

  /** An empty segment announces the next sequence number, takes up none, and is not queued. */
  lemma SendEmptyAnnounces(s: Sender)
    ensures var t := s.SendEmptySegment();
      && t == s.(out := t.out) && |t.out| == |s.out| + 1 && s.out <= t.out
      && var seg := t.out[|s.out|];
         seg.Length() == 0 && seg.header.seqno == Wrap(s.next, s.isn) && Plain(seg.header)
  {
    hide Wrap;
  }

  // ---------------------------------------------------------------------------
  // The derived state only moves forward
  // ---------------------------------------------------------------------------

  datatype SenderState = Error | ClosedState | SynSent | SynAcked | FinSent | FinAcked

  /** The state as derived from the counters. */
  function Summary(s: Sender): SenderState
    requires s.Valid()
  {
    if s.stream.error then Error
    else if s.next == 0 then ClosedState
    else if s.next == s.InFlight() then SynSent
    else if !s.stream.Eof() then SynAcked
    else if s.next < |s.stream.data| + 2 then SynAcked
    else if s.InFlight() > 0 then FinSent
    else FinAcked
  }

  function Rank(x: SenderState): nat {
    match x
    case Error => 0
    case ClosedState => 1
    case SynSent => 2
    case SynAcked => 3
    case FinSent => 4
    case FinAcked => 5
  }

  /** Once the SYN is acknowledged, the counters say exactly whether the FIN has been sent. */
  lemma SummaryMeans(s: Sender)
    requires Coherent(s)
    ensures s.next > 0 && s.stream.Eof() ==> (s.next < |s.stream.data| + 2 <==> !s.finSent)
    ensures Summary(s) ==
      if s.stream.error then Error
      else if s.next == 0 then ClosedState else if s.acked == 0 then SynSent else if !s.finSent then SynAcked
      else if s.acked < s.next then FinSent else FinAcked
  {
  }

  /** In every run without a stream error, the derived state never goes back. */
  lemma StateMovesForward(isn: uint32, capacity: nat, timeout: uint16,
      events: seq<Event>, s: Sender, more: seq<Event>, t: Sender)
    requires Leads(Closed(isn, capacity, timeout), events, s)
    requires s.Valid() && Leads(s, more, t)
    ensures t.Valid() && Rank(ClosedState) <= Rank(Summary(s)) <= Rank(Summary(t))
  {
    hide Leads, Summary, Tiled;
    ClosedIsCoherent(isn, capacity, timeout);
    RunSound(Closed(isn, capacity, timeout), events, s);
    RunSound(s, more, t);
    SummaryMeans(s);
    SummaryMeans(t);
  }

  /** Writing after the end of the input breaks this: once the SYN is acknowledged, the state goes back whenever
      the write takes effect. */
  lemma WriteAfterEndGoesBack(s: Sender, data: seq<byte>)
    requires Coherent(s) && !s.stream.error && s.finSent
    ensures Rank(Summary(s)) <= Rank(Summary(s.Write(data)))
       <==> s.acked == 0 || data == [] || s.stream.Room() == 0
  {
    SummaryMeans(s);
  }
}
