/** Exponential back-off (section 5 of RFC 6298) over whole runs of a sender. */
module BackOffTheory {
  import opened Widths
  import opened WrappingIntegers
  import opened Timers
  import opened Sending
  import opened SenderInvariant
  import opened SenderRuns

  function Pow2(n: nat): (p: nat)
    ensures p > 0
  {
    if n == 0 then 1 else 2 * Pow2(n - 1)
  }

  /** `initial` doubled `c` times, and the sum of what it was before each doubling. */
  function Doubled(initial: nat, c: nat): nat {
    if c == 0 then initial else 2 * Doubled(initial, c - 1)
  }

  function Waited(initial: nat, c: nat): nat {
    if c == 0 then 0 else Waited(initial, c - 1) + Doubled(initial, c - 1)
  }

  lemma {:induction false} ClosedForms(initial: nat, c: nat)
    ensures Doubled(initial, c) == initial * Pow2(c) && Waited(initial, c) == initial * (Pow2(c) - 1)
  {
    if c > 0 {
      ClosedForms(initial, c - 1);
    }
  }

  /** The timer has just been started, or reset by an acknowledgment. */
  predicate JustStarted(s: Sender) {
    s.timer.running && s.timer.elapsed == 0 && s.timer.rto == s.timer.initial && s.retransmissions == 0
  }

  /** Sending into an empty queue, and an acknowledgment that leaves part of the queue, both start the timer afresh. */
  lemma TimerStartsAfresh(s: Sender, e: Event)
    requires Coherent(s) && Allowed(s, e)
    requires e.FillWindow? || e.Ack?
    requires Apply(s, e).outstanding != []
    requires if e.FillWindow? then s.outstanding == [] else Apply(s, e).outstanding != s.outstanding
    ensures JustStarted(Apply(s, e))
  {
    hide Unwrap, Sender.FillWindow, Carries, EndOf;
    FillWindowKeeps(s);
  }

  /** Whatever an acknowledgment pops, it leaves the timer as it was at first, and stopped if nothing is left. */
  lemma AckResetsTimer(s: Sender, ackno: uint32, win: uint16)
    requires s.Valid() && s.next < TWO64
    ensures var t := s.AckReceived(ackno, win);
      if t.outstanding == s.outstanding then t.timer == s.timer && t.retransmissions == s.retransmissions
      else t.timer == Timer(t.outstanding != [], 0, s.timer.initial, s.timer.initial) && t.retransmissions == 0
  {
    hide Unwrap, EndOf;
  }

  predicate TimesOut(s: Sender, e: Event) {
    e.Tick? && s.timer.Pass(e.ms).Expired()
  }

  /** A stretch of a run during which no outstanding segment is acknowledged and the window stays open, or closed. */
  ghost predicate Quiet(s: Sender, open: bool, events: seq<Event>, t: Sender)
    requires s.Valid()
    decreases |events|
  {
    && (s.window > 0 <==> open)
    && if events == [] then t == s else
       && Allowed(s, events[0])
       && (events[0].Ack? ==> Apply(s, events[0]).outstanding == s.outstanding)
       && Quiet(Apply(s, events[0]), open, events[1..], t)
  }

  /** The time that passes during the events. */
  function Elapsed(events: seq<Event>): nat {
    if events == [] then 0 else (if events[0].Tick? then events[0].ms else 0) + Elapsed(events[1..])
  }

  /** The number of timeouts during the events. */
  ghost function Timeouts(s: Sender, events: seq<Event>): nat
    requires s.Valid()
    decreases |events|
  {
    if events == [] || !Allowed(s, events[0]) then 0
    else (if TimesOut(s, events[0]) then 1 else 0) + Timeouts(Apply(s, events[0]), events[1..])
  }

  /** After `c` timeouts and `total` milliseconds. The clause about time presumes that the timeout has not overflowed
      before its last doubling. */
  ghost predicate BackedOff(s: Sender, c: nat, total: nat) {
    && s.timer.running
    && s.retransmissions == c % TWO32
    && s.timer.rto == Doubled(s.timer.initial, c) % TWO64
    && (c == 0 || Doubled(s.timer.initial, c - 1) < TWO64 ==>
          total >= Waited(s.timer.initial, c) + s.timer.elapsed)
  }

  lemma DoubleMod(x: nat)
    ensures x % TWO64 * 2 % TWO64 == 2 * x % TWO64
  {
    TurnsDrop(2 * (x % TWO64), 2 * (x / TWO64));
  }

  lemma TurnsDrop(a: int, k: int)
    ensures (k * TWO64 + a) % TWO64 == a % TWO64
  {
  }

  lemma CountOn(c: nat)
    ensures (c % TWO32 + 1) % TWO32 == (c + 1) % TWO32
  {
  }

  /** A timeout with the window open: the timeout doubles, the count grows and the timer starts over. */
  lemma TimedOut(s: Sender, ms: uint64)
    requires s.Valid() && s.window > 0 && TimesOut(s, Tick(ms))
    ensures var t := s.Tick(ms);
      && t.window == s.window && t.timer.running && t.timer.elapsed == 0 && t.timer.initial == s.timer.initial
      && t.timer.rto == s.timer.rto * 2 % TWO64 && t.retransmissions == (s.retransmissions + 1) % TWO32
    ensures s.timer.elapsed + ms >= s.timer.rto
  {
  }

  lemma TimeoutStep(s: Sender, ms: uint64, c: nat, total: nat)
    requires s.Valid() && s.window > 0 && BackedOff(s, c, total) && TimesOut(s, Tick(ms))
    ensures BackedOff(s.Tick(ms), c + 1, total + ms)
  {
    hide Sender.Tick, TimesOut;
    TimedOut(s, ms);
    DoubleMod(Doubled(s.timer.initial, c));
    CountOn(c);
  }

  lemma OtherStep(s: Sender, e: Event, c: nat, total: nat)
    requires s.Valid() && s.window > 0 && Allowed(s, e) && BackedOff(s, c, total) && !TimesOut(s, e)
    requires e.Ack? ==> Apply(s, e).outstanding == s.outstanding
    ensures BackedOff(Apply(s, e), c, total + if e.Tick? then e.ms else 0)
  {
    hide Unwrap, Sender.FillWindow, Doubled, Waited;
    FillWindowKeeps(s);
    if e.Ack? {
      NoPop(s, e.ackno, e.win);
    }
  }

  lemma NoPop(s: Sender, ackno: uint32, win: uint16)
    requires s.Valid() && s.next < TWO63 && s.AckReceived(ackno, win).outstanding == s.outstanding
    requires s.timer.running
    ensures s.AckReceived(ackno, win).timer == s.timer && s.AckReceived(ackno, win).retransmissions == s.retransmissions
  {
    hide Unwrap;
  }

  lemma {:induction false} QuietRun(s: Sender, events: seq<Event>, t: Sender, c: nat, total: nat)
    requires s.Valid() && Quiet(s, true, events, t) && BackedOff(s, c, total)
    ensures BackedOff(t, c + Timeouts(s, events), total + Elapsed(events)) && t.timer.initial == s.timer.initial
    decreases |events|
  {
    hide BackedOff, Apply;
    if events != [] {
      var e, s1 := events[0], Apply(s, events[0]);
      SameInitial(s, e);
      if TimesOut(s, e) {
        TimeoutStep(s, e.ms, c, total);
        assert s1 == s.Tick(e.ms) by { TickApplies(s, e.ms); }
        QuietRun(s1, events[1..], t, c + 1, total + e.ms);
      } else {
        OtherStep(s, e, c, total);
        QuietRun(s1, events[1..], t, c, total + if e.Tick? then e.ms else 0);
      }
    }
  }

  lemma TickApplies(s: Sender, ms: uint64)
    requires s.Valid()
    ensures Apply(s, Tick(ms)) == s.Tick(ms)
  {
  }

  lemma SameInitial(s: Sender, e: Event)
    requires s.Valid() && Allowed(s, e)
    ensures Apply(s, e).timer.initial == s.timer.initial
  {
    hide Unwrap, Sender.FillWindow;
    FillWindowKeeps(s);
  }

  /** Whatever the sizes of the ticks and whatever else the sender does meanwhile: after `c` timeouts the timeout is
      the initial one doubled `c` times exactly while that fits 64 bits, and at least initial * (2^c - 1)
      milliseconds have passed. */
  lemma BackOffBound(s: Sender, events: seq<Event>, t: Sender)
    requires s.Valid() && JustStarted(s) && Quiet(s, true, events, t)
    ensures var c, initial := Timeouts(s, events), s.timer.initial;
      && t.retransmissions == c % TWO32
      && (t.timer.rto == initial * Pow2(c) <==> initial * Pow2(c) < TWO64)
      && (c == 0 || initial * Pow2(c - 1) < TWO64 ==> Elapsed(events) >= initial * (Pow2(c) - 1))
  {
    hide Pow2, Quiet, Timeouts, Doubled, Waited;
    var c := Timeouts(s, events);
    NotYetBackedOff(s);
    QuietRun(s, events, t, 0, 0);
    ClosedForms(s.timer.initial, c);
    ClosedForms(s.timer.initial, if c > 0 then c - 1 else 0);
    FitsOrWraps(Doubled(s.timer.initial, c));
  }

  lemma NotYetBackedOff(s: Sender)
    requires JustStarted(s)
    ensures BackedOff(s, 0, 0)
  {
  }

  lemma FitsOrWraps(x: nat)
    ensures x % TWO64 == x <==> x < TWO64
  {
  }

  // ---------------------------------------------------------------------------
  // Zero-window probing (section 3.8.6 of RFC 9293)
  // ---------------------------------------------------------------------------

  function Repeated(initial: nat, c: nat): nat {
    if c == 0 then 0 else Repeated(initial, c - 1) + initial
  }

  lemma {:induction false} RepeatedIs(initial: nat, c: nat)
    ensures Repeated(initial, c) == initial * c
  {
    if c > 0 {
      RepeatedIs(initial, c - 1);
    }
  }

  /** After `c` timeouts and `total` milliseconds of a closed window: the timeout is the initial one. */
  ghost predicate Probing(s: Sender, c: nat, total: nat) {
    && s.timer.running
    && s.retransmissions == c % TWO32
    && s.timer.rto == s.timer.initial
    && total >= Repeated(s.timer.initial, c) + s.timer.elapsed
  }

  lemma ProbeStep(s: Sender, e: Event, c: nat, total: nat)
    requires s.Valid() && s.window == 0 && Allowed(s, e) && Probing(s, c, total)
    requires e.Ack? ==> Apply(s, e).outstanding == s.outstanding
    ensures Probing(Apply(s, e), if TimesOut(s, e) then c + 1 else c, total + if e.Tick? then e.ms else 0)
  {
    hide Unwrap, Sender.FillWindow;
    FillWindowKeeps(s);
    if e.Ack? {
      NoPop(s, e.ackno, e.win);
    }
    CountOn(c);
  }

  lemma {:induction false} ProbingRun(s: Sender, events: seq<Event>, t: Sender, c: nat, total: nat)
    requires s.Valid() && Quiet(s, false, events, t) && Probing(s, c, total)
    ensures Probing(t, c + Timeouts(s, events), total + Elapsed(events)) && t.timer.initial == s.timer.initial
    decreases |events|
  {
    hide Probing, Apply;
    if events != [] {
      var e := events[0];
      SameInitial(s, e);
      ProbeStep(s, e, c, total);
      ProbingRun(Apply(s, e), events[1..], t, if TimesOut(s, e) then c + 1 else c, total + if e.Tick? then e.ms else 0);
    }
  }

  /** While the window is closed there is no back-off: probes go out at intervals of the initial timeout or more. */
  lemma ZeroWindowProbes(s: Sender, events: seq<Event>, t: Sender)
    requires s.Valid() && JustStarted(s) && Quiet(s, false, events, t)
    ensures t.timer.rto == s.timer.initial
    ensures Elapsed(events) >= s.timer.initial * Timeouts(s, events)
  {
    hide Quiet, Timeouts;
    ProbingRun(s, events, t, 0, 0);
    RepeatedIs(s.timer.initial, Timeouts(s, events));
  }

  // ---------------------------------------------------------------------------
  // Past 64 bits
  // ---------------------------------------------------------------------------

  lemma {:induction false} QuietLeads(s: Sender, open: bool, events: seq<Event>, t: Sender)
    requires s.Valid() && Quiet(s, open, events, t)
    ensures t.Valid() && Leads(s, events, t) && (t.window > 0 <==> open)
    decreases |events|
  {
    hide Apply;
    if events != [] {
      QuietLeads(Apply(s, events[0]), open, events[1..], t);
    }
  }

  /** The timeouts that `c` doublings go through from the k-th on, each cut to 64 bits, added up. */
  function Wrapped(initial: nat, k: nat, c: nat): nat
    decreases c
  {
    if c == 0 then 0 else Doubled(initial, k) % TWO64 + Wrapped(initial, k + 1, c - 1)
  }

  /** A tick that lets just the current timeout pass. */
  lemma FullTick(s: Sender, k: nat)
    requires s.Valid() && s.window > 0 && s.timer.running && s.timer.elapsed == 0
    requires s.timer.rto == Doubled(s.timer.initial, k) % TWO64
    ensures TimesOut(s, Tick(s.timer.rto))
    ensures var t := s.Tick(s.timer.rto);
      && t.window == s.window && t.timer.running && t.timer.elapsed == 0 && t.timer.initial == s.timer.initial
      && t.timer.rto == Doubled(s.timer.initial, k + 1) % TWO64
  {
    hide Sender.Tick;
    TimedOut(s, s.timer.rto);
    DoubleMod(Doubled(s.timer.initial, k));
  }

  /** A run of ticks that each let just the current timeout pass. */
  lemma {:induction false} TickByTick(s: Sender, k: nat, c: nat) returns (events: seq<Event>, t: Sender)
    requires s.Valid() && s.window > 0 && s.timer.running && s.timer.elapsed == 0
    requires s.timer.rto == Doubled(s.timer.initial, k) % TWO64
    ensures Quiet(s, true, events, t) && Timeouts(s, events) == c
    ensures Elapsed(events) == Wrapped(s.timer.initial, k, c)
    decreases c
  {
    if c == 0 {
      events, t := [], s;
    } else {
      hide Sender.Tick, TimesOut, Doubled;
      var e := Tick(s.timer.rto);
      FullTick(s, k);
      TickApplies(s, s.timer.rto);
      var rest;
      rest, t := TickByTick(s.Tick(s.timer.rto), k + 1, c - 1);
      events := [e] + rest;
      assert events[0] == e && events[1..] == rest;
    }
  }

  lemma CutToSize(x: nat)
    ensures x % TWO64 <= x && (x >= TWO64 ==> x % TWO64 < x)
  {
  }

  /** One timeout cut to 64 bits makes the sum of all of them fall short. */
  lemma {:induction false} WrappedFallsShort(initial: nat, k: nat, c: nat)
    ensures Waited(initial, k) + Wrapped(initial, k, c) <= Waited(initial, k + c)
    ensures c > 0 && Doubled(initial, k + c - 1) >= TWO64 ==>
      Waited(initial, k) + Wrapped(initial, k, c) < Waited(initial, k + c)
    decreases c
  {
    if c > 0 {
      WrappedFallsShort(initial, k + 1, c - 1);
      CutToSize(Doubled(initial, k));
    }
  }

  /** A quiet run with an open window and exactly `c` timeouts. */
  ghost predicate QuietFor(s: Sender, events: seq<Event>, t: Sender, c: nat)
    requires s.Valid()
  {
    Quiet(s, true, events, t) && Timeouts(s, events) == c
  }

  /** The bound on the time is exact: it holds for all runs with `c` timeouts if and only if no timeout before the
      last one overflowed. */
  lemma BackOffBoundExactly(s: Sender, c: nat)
    requires s.Valid() && JustStarted(s) && s.window > 0
    ensures var initial := s.timer.initial;
      (forall events: seq<Event>, t: Sender :: QuietFor(s, events, t, c) ==>
         Elapsed(events) >= initial * (Pow2(c) - 1))
      <==> (c == 0 || initial * Pow2(c - 1) < TWO64)
  {
    hide Pow2, Quiet, Timeouts, Elapsed, Doubled, Waited, Wrapped;
    var initial := s.timer.initial;
    if c == 0 || initial * Pow2(c - 1) < TWO64 {
      forall events: seq<Event>, t: Sender | QuietFor(s, events, t, c)
        ensures Elapsed(events) >= initial * (Pow2(c) - 1)
      {
        BackOffBound(s, events, t);
      }
    } else {
      FirstTimeout(initial);
      var events, t := TickByTick(s, 0, c);
      WrappedFallsShort(initial, 0, c);
      ClosedForms(initial, c);
      ClosedForms(initial, c - 1);
      assert QuietFor(s, events, t, c) && Elapsed(events) < initial * (Pow2(c) - 1);
    }
  }

  lemma FirstTimeout(initial: uint64)
    ensures Doubled(initial, 0) % TWO64 == initial && Waited(initial, 0) == 0
  {
  }

  lemma {:induction false} Pow2Add(a: nat, b: nat)
    ensures Pow2(a + b) == Pow2(a) * Pow2(b)
  {
    if a > 0 {
      Pow2Add(a - 1, b);
    }
  }

  lemma Pow2Of64()
    ensures Pow2(64) == TWO64
  {
    assert Pow2(2) == 4 && Pow2(4) == 16 && Pow2(6) == 64 && Pow2(8) == TWO8;
    hide Pow2;
    Pow2Add(8, 8);
    assert Pow2(16) == TWO16;
    Pow2Add(16, 16);
    assert Pow2(32) == TWO32;
    Pow2Add(32, 32);
  }

  /** From the 64th doubling on nothing is left of the timeout. */
  lemma DoubledAway(initial: nat, c: nat)
    requires c >= 64
    ensures Doubled(initial, c) % TWO64 == 0
  {
    hide Pow2, Doubled, Waited;
    ClosedForms(initial, c);
    Pow2Add(c - 64, 64);
    Pow2Of64();
    var k := initial * Pow2(c - 64);
    assert initial * (Pow2(c - 64) * TWO64) == k * TWO64;
    TurnsDrop(0, k);
  }

  function Ticks(events: seq<Event>): nat {
    if events == [] then 0 else (if events[0].Tick? then 1 else 0) + Ticks(events[1..])
  }

  lemma NoTimeoutLeft(s: Sender, e: Event)
    requires s.Valid() && s.window > 0 && Allowed(s, e) && s.timer.running && s.timer.rto == 0
    requires e.Ack? ==> Apply(s, e).outstanding == s.outstanding
    ensures Apply(s, e).timer.running && Apply(s, e).timer.rto == 0
    ensures e.Tick? ==> TimesOut(s, e) && Apply(s, e).out == s.out + [s.outstanding[0]]
  {
    hide Unwrap, Sender.FillWindow;
    FillWindowKeeps(s);
    if e.Ack? {
      NoPop(s, e.ackno, e.win);
    }
  }

  lemma {:induction false} EveryTickTimesOut(s: Sender, events: seq<Event>, t: Sender)
    requires s.Valid() && Quiet(s, true, events, t) && s.timer.running && s.timer.rto == 0
    ensures t.timer.running && t.timer.rto == 0 && Timeouts(s, events) == Ticks(events)
    decreases |events|
  {
    hide Apply;
    if events != [] {
      NoTimeoutLeft(s, events[0]);
      EveryTickTimesOut(Apply(s, events[0]), events[1..], t);
    }
  }

  /** After 64 timeouts there is no back-off left: the timeout is zero, and for as long as nothing is acknowledged
      every tick, even of no time at all, resends the oldest segment. */
  lemma BackOffEnds(s: Sender, events: seq<Event>, t: Sender, more: seq<Event>, u: Sender, ms: uint64)
    requires s.Valid() && JustStarted(s) && Quiet(s, true, events, t) && Timeouts(s, events) >= 64
    requires t.Valid() && Quiet(t, true, more, u)
    ensures t.timer.rto == 0 && Timeouts(t, more) == Ticks(more)
    ensures u.Valid() && u.outstanding != [] && u.Tick(ms).out == u.out + [u.outstanding[0]]
  {
    hide Timeouts, Doubled, Waited, Quiet, Sender.Tick;
    NotYetBackedOff(s);
    QuietRun(s, events, t, 0, 0);
    DoubledAway(s.timer.initial, Timeouts(s, events));
    EveryTickTimesOut(t, more, u);
    QuietLeads(t, true, more, u);
    NoTimeoutLeft(u, Tick(ms));
    TickApplies(u, ms);
  }

  /** Such a run exists for every sender: send the SYN and let each timeout pass 64 times. */
  lemma TimeoutOverflowReached(isn: uint32, capacity: nat, timeout: uint16)
    ensures exists events: seq<Event>, s: Sender ::
      Leads(Closed(isn, capacity, timeout), events, s) && s.timer.running && s.window > 0 && s.timer.rto == 0
  {
    var closed := Closed(isn, capacity, timeout);
    ClosedIsCoherent(isn, capacity, timeout);
    var s := closed.FillWindow();
    assert s == closed.SendOne();
    assert s.timer.running;
    FirstTimeout(timeout);
    hide Doubled, Waited, Quiet, Timeouts;
    var events, t := TickByTick(s, 0, 64);
    QuietLeads(s, true, events, t);
    QuietNothing(t);
    BackOffEnds(s, events, t, [], t, 0);
    NotYetBackedOff(s);
    QuietRun(s, events, t, 0, 0);
    assert ([FillWindow] + events)[1..] == events;
    assert Leads(closed, [FillWindow] + events, t);
  }

  lemma QuietNothing(s: Sender)
    requires s.Valid() && s.window > 0
    ensures Quiet(s, true, [], s)
  {
  }
}
