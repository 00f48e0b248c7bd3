/** Timeouts come when they are due: the upper bounds that go with the lower ones of the back-off. */
module OnTime {
  import opened Widths
  import opened WrappingIntegers
  import opened Sending
  import opened SenderRuns
  import opened BackOffTheory

  // ---------------------------------------------------------------------------
  // Time accumulates
  // ---------------------------------------------------------------------------

  function Passed(e: Event): uint64 {
    if e.Tick? then e.ms else 0
  }

  /** A tick resends the oldest segment exactly when the time accumulated, in 64 bits, has reached the timeout,
      and starts over with twice the timeout, or the initial one while the window is closed. Otherwise it changes
      nothing but that time. */
  lemma TickResendsExactly(s: Sender, ms: uint64)
    requires s.Valid()
    ensures s.outstanding == [] ==> s.Tick(ms) == s && !TimesOut(s, Tick(ms))
    ensures s.outstanding != [] ==>
      var t, total := s.Tick(ms), s.timer.elapsed + ms;
      if s.timer.rto <= total < TWO64 || s.timer.rto + TWO64 <= total
      then && TimesOut(s, Tick(ms))
           && t == s.(out := s.out + [s.outstanding[0]], timer := t.timer,
                      retransmissions := (s.retransmissions + 1) % TWO32)
           && t.timer.running && t.timer.elapsed == 0 && t.timer.initial == s.timer.initial
           && t.timer.rto == if s.window > 0 then s.timer.rto * 2 % TWO64 else s.timer.initial
      else !TimesOut(s, Tick(ms)) && t == s.(timer := s.timer.(elapsed := total % TWO64))
  {
  }

  /** An event of a quiet stretch that is not a timeout does nothing to the timer but let time pass. */
  lemma QuietStep(s: Sender, e: Event)
    requires s.Valid() && s.outstanding != [] && Allowed(s, e) && !TimesOut(s, e)
    requires e.Ack? ==> Apply(s, e).outstanding == s.outstanding
    ensures Apply(s, e).outstanding != []
    ensures Apply(s, e).timer == s.timer.(elapsed := (s.timer.elapsed + Passed(e)) % TWO64)
  {
    hide Unwrap, Sender.FillWindow, Sender.Tick, TimesOut;
    FillWindowKeeps(s);
    if e.Ack? {
      NoPop(s, e.ackno, e.win);
    } else if e.Tick? {
      TickResendsExactly(s, e.ms);
    }
  }

  lemma {:induction false} NoTicksNoTime(events: seq<Event>)
    requires Ticks(events) == 0
    ensures Elapsed(events) == 0
  {
    if events != [] {
      NoTicksNoTime(events[1..]);
    }
  }

  /** Over a quiet stretch all ticks count together, however small: none times out exactly if they add up to less than
      what is left of the timeout, and then just that much time has passed. */
  lemma {:induction false} TimeAccumulates(s: Sender, open: bool, events: seq<Event>, t: Sender)
    requires s.Valid() && s.outstanding != [] && Quiet(s, open, events, t)
    requires s.timer.elapsed + Elapsed(events) < TWO64
    ensures Timeouts(s, events) == 0
       <==> Ticks(events) == 0 || s.timer.elapsed + Elapsed(events) < s.timer.rto
    ensures Timeouts(s, events) == 0 ==> t.timer == s.timer.(elapsed := s.timer.elapsed + Elapsed(events))
    decreases |events|
  {
    hide Apply, TimesOut, Sender.Tick, Allowed;
    if events != [] {
      var e := events[0];
      if e.Tick? {
        TickResendsExactly(s, e.ms);
      }
      if !TimesOut(s, e) {
        QuietStep(s, e);
        TimeAccumulates(Apply(s, e), open, events[1..], t);
        if Ticks(events[1..]) == 0 {
          NoTicksNoTime(events[1..]);
        }
      } else {
        OnlyTicksTimeOut(s, e);
      }
    }
  }

  lemma OnlyTicksTimeOut(s: Sender, e: Event)
    requires TimesOut(s, e)
    ensures e.Tick?
  {
  }

  // ---------------------------------------------------------------------------
  // Back-off on time
  // ---------------------------------------------------------------------------

  /** No tick lets more than `grain` milliseconds pass. */
  predicate FineGrained(events: seq<Event>, grain: nat) {
    forall e :: e in events ==> Passed(e) <= grain
  }

  /** After `c` timeouts and `total` milliseconds with a window that is open, or closed: every timeout came with the
      first tick that reached it, so at most `grain - 1` late. */
  ghost predicate Punctual(s: Sender, open: bool, c: nat, total: nat, grain: nat)
    requires grain > 0
  {
    && s.outstanding != [] && s.timer.elapsed < s.timer.rto
    && s.timer.rto == (if open then Doubled(s.timer.initial, c) else s.timer.initial)
    && total <= (if open then Waited(s.timer.initial, c) else Repeated(s.timer.initial, c))
                + Repeated(grain - 1, c) + s.timer.elapsed
  }

  lemma PunctualStep(s: Sender, open: bool, e: Event, c: nat, total: nat, grain: nat)
    requires grain > 0 && s.Valid() && Allowed(s, e) && Passed(e) <= grain && (s.window > 0 <==> open)
    requires Punctual(s, open, c, total, grain) && s.timer.rto + grain <= TWO64
    requires open && TimesOut(s, e) ==> Doubled(s.timer.initial, c + 1) < TWO64
    requires e.Ack? ==> Apply(s, e).outstanding == s.outstanding
    ensures Punctual(Apply(s, e), open, if TimesOut(s, e) then c + 1 else c, total + Passed(e), grain)
  {
    hide Unwrap, Sender.FillWindow, Sender.Tick, TimesOut, Apply;
    if TimesOut(s, e) {
      OnlyTicksTimeOut(s, e);
      TickApplies(s, e.ms);
      TickResendsExactly(s, e.ms);
    } else {
      QuietStep(s, e);
      if e.Tick? {
        TickResendsExactly(s, e.ms);
      }
    }
  }

  lemma {:induction false} DoubledGrows(initial: nat, c: nat, n: nat)
    ensures Doubled(initial, c) <= Doubled(initial, c + n)
    decreases n
  {
    if n > 0 {
      DoubledGrows(initial, c, n - 1);
    }
  }

  lemma {:induction false} PunctualRun(s: Sender, open: bool, events: seq<Event>, t: Sender, c: nat, total: nat,
      grain: nat)
    requires grain > 0 && s.Valid() && Quiet(s, open, events, t) && FineGrained(events, grain)
    requires Punctual(s, open, c, total, grain) && s.timer.initial + grain <= TWO64
    requires open ==> Doubled(s.timer.initial, c + Timeouts(s, events)) + grain <= TWO64
    ensures Punctual(t, open, c + Timeouts(s, events), total + Elapsed(events), grain)
    ensures t.timer.initial == s.timer.initial
    decreases |events|
  {
    hide Apply, TimesOut, Allowed, Waited, Doubled, Repeated;
    if events != [] {
      var e := events[0];
      var c' := if TimesOut(s, e) then c + 1 else c;
      DoubledGrows(s.timer.initial, c, Timeouts(s, events));
      DoubledGrows(s.timer.initial, c', c + Timeouts(s, events) - c');
      SameInitial(s, e);
      PunctualStep(s, open, e, c, total, grain);
      PunctualRun(Apply(s, e), open, events[1..], t, c', total + Passed(e), grain);
    }
  }

  /** The upper bound that goes with the lower one: with ticks of at most `grain` milliseconds, the timeout after the
      c-th is due before initial * (2^(c + 1) - 1) milliseconds, plus what the c timeouts were late. With ticks of one
      millisecond the number of timeouts is therefore determined by the time. */
  lemma BackOffOnTime(s: Sender, events: seq<Event>, t: Sender, grain: nat)
    requires grain > 0 && s.Valid() && JustStarted(s) && s.timer.initial > 0
    requires Quiet(s, true, events, t) && FineGrained(events, grain)
    requires s.timer.initial * Pow2(Timeouts(s, events)) + grain <= TWO64
    ensures var c, initial := Timeouts(s, events), s.timer.initial;
      && Elapsed(events) < initial * (Pow2(c + 1) - 1) + (grain - 1) * c
      && t.timer.rto == initial * Pow2(c)
  {
    hide Quiet, Timeouts, Doubled, Waited, Repeated, Pow2, FineGrained;
    var c, initial := Timeouts(s, events), s.timer.initial;
    ClosedForms(initial, 0);
    ClosedForms(initial, c);
    ClosedForms(initial, c + 1);
    DoubledGrows(initial, 0, c);
    StartsPunctual(s, true, grain);
    PunctualRun(s, true, events, t, 0, 0, grain);
    RepeatedIs(grain - 1, c);
    OneMoreTimeout(initial, c);
  }

  lemma OneMoreTimeout(initial: nat, c: nat)
    ensures Waited(initial, c + 1) == Waited(initial, c) + Doubled(initial, c)
    ensures Doubled(initial, 0) == initial
  {
  }

  lemma StartsPunctual(s: Sender, open: bool, grain: nat)
    requires grain > 0 && s.Valid() && JustStarted(s) && s.timer.initial > 0
    ensures Punctual(s, open, 0, 0, grain)
  {
  }

  /** While the window is closed a probe goes out once every initial timeout, as promptly as the ticks allow. */
  lemma ProbesOnTime(s: Sender, events: seq<Event>, t: Sender, grain: nat)
    requires grain > 0 && s.Valid() && JustStarted(s) && s.timer.initial > 0 && s.timer.initial + grain <= TWO64
    requires Quiet(s, false, events, t) && FineGrained(events, grain)
    ensures var c, initial := Timeouts(s, events), s.timer.initial;
      Elapsed(events) < initial * (c + 1) + (grain - 1) * c
  {
    hide Quiet, Timeouts, Doubled, Waited, Repeated, FineGrained;
    var c, initial := Timeouts(s, events), s.timer.initial;
    StartsPunctual(s, false, grain);
    PunctualRun(s, false, events, t, 0, 0, grain);
    RepeatedIs(grain - 1, c);
    RepeatedIs(initial, c);
    assert initial * (c + 1) == initial * c + initial;
  }
}
