/** What a whole call of fill_window does, in closed form. */
module FillWindowTheory {
  import opened Widths
  import opened WrappingIntegers
  import opened Segments
  import opened Sending

  function Syn(isn: uint32): Segment {
    Segment(BLANK.(syn := true, seqno := isn), [])
  }

  function DataSegment(isn: uint32, start: nat, payload: seq<byte>, fin: bool): Segment {
    Segment(BLANK.(seqno := Wrap(start, isn), fin := fin), payload)
  }

  /** How many segments it takes: full ones, a last one, and one for a FIN without data. */
  function SegmentCount(len: nat, fin: bool): nat {
    if len == 0 then (if fin then 1 else 0) else (len - 1) / MAX_PAYLOAD_SIZE + 1
  }

  /** Segment `k` carries the k-th piece of the maximum size; the last one is shorter if need be and has the FIN. */
  function Nth(isn: uint32, start: nat, data: seq<byte>, fin: bool, k: nat): Segment
    requires k < SegmentCount(|data|, fin)
  {
    DataSegment(isn, start + MAX_PAYLOAD_SIZE * k,
      data[MAX_PAYLOAD_SIZE * k..Min(MAX_PAYLOAD_SIZE * (k + 1), |data|)], fin && k == SegmentCount(|data|, fin) - 1)
  }

  function Segmentation(isn: uint32, start: nat, data: seq<byte>, fin: bool): seq<Segment> {
    seq(SegmentCount(|data|, fin), k requires 0 <= k < SegmentCount(|data|, fin) => Nth(isn, start, data, fin, k))
  }

  lemma SegmentationOne(isn: uint32, start: nat, data: seq<byte>, fin: bool)
    requires |data| <= MAX_PAYLOAD_SIZE && (data == [] ==> fin)
    ensures Segmentation(isn, start, data, fin) == [DataSegment(isn, start, data, fin)]
  {
    assert SegmentCount(|data|, fin) == 1;
    assert data[0..|data|] == data;
  }

  lemma SegmentationNone(isn: uint32, start: nat)
    ensures Segmentation(isn, start, [], false) == []
  {
  }

  lemma NthOfRest(isn: uint32, start: nat, data: seq<byte>, fin: bool, k: nat)
    requires |data| > MAX_PAYLOAD_SIZE && k < SegmentCount(|data| - MAX_PAYLOAD_SIZE, fin)
    ensures SegmentCount(|data|, fin) == SegmentCount(|data| - MAX_PAYLOAD_SIZE, fin) + 1
    ensures Nth(isn, start, data, fin, k + 1) == Nth(isn, start + MAX_PAYLOAD_SIZE, data[MAX_PAYLOAD_SIZE..], fin, k)
  {
    hide Wrap;
    var rest := data[MAX_PAYLOAD_SIZE..];
    assert rest[MAX_PAYLOAD_SIZE * k..Min(MAX_PAYLOAD_SIZE * (k + 1), |rest|)]
        == data[MAX_PAYLOAD_SIZE * (k + 1)..Min(MAX_PAYLOAD_SIZE * (k + 2), |data|)];
  }

  lemma SegmentationMore(isn: uint32, start: nat, data: seq<byte>, fin: bool)
    requires |data| > MAX_PAYLOAD_SIZE
    ensures Segmentation(isn, start, data, fin)
         == [DataSegment(isn, start, data[..MAX_PAYLOAD_SIZE], false)]
            + Segmentation(isn, start + MAX_PAYLOAD_SIZE, data[MAX_PAYLOAD_SIZE..], fin)
  {
    assert Nth(isn, start, data, fin, 0) == DataSegment(isn, start, data[..MAX_PAYLOAD_SIZE], false);
    hide Nth;
    var all := Segmentation(isn, start, data, fin);
    var rest := Segmentation(isn, start + MAX_PAYLOAD_SIZE, data[MAX_PAYLOAD_SIZE..], fin);
    forall k | 0 <= k < |rest|
      ensures all[k + 1] == rest[k]
    {
      NthOfRest(isn, start, data, fin, k);
    }
  }

  /** The room left in the window, and how much of the stream fits into it. */
  function Room(s: Sender): int
    requires s.Valid()
  {
    s.EffectiveWindow() - s.InFlight()
  }

  function Fitting(s: Sender): (n: nat)
    requires s.Valid() && Room(s) >= 0
    ensures n <= |s.stream.Buffer()|
  {
    Min(Room(s), |s.stream.Buffer()|)
  }

  /** The FIN goes out when the stream has ended, all of it fits, and one more sequence number does too. */
  predicate FinFits(s: Sender)
    requires s.Valid() && Room(s) >= 0
  {
    s.stream.ended && Fitting(s) == |s.stream.Buffer()| < Room(s)
  }

  /** `t` is `s` after the segments `sent` have gone out, carrying `n` bytes and possibly the FIN. */
  predicate After(s: Sender, t: Sender, sent: seq<Segment>, n: nat, fin: bool)
    requires s.Valid() && n <= |s.stream.Buffer()|
  {
    t == s.(stream := s.stream.Read(n), next := s.next + n + (if fin then 1 else 0), finSent := s.finSent || fin,
            out := s.out + sent, outstanding := s.outstanding + sent,
            timer := if sent == [] then s.timer else s.timer.Start())
  }

  lemma SendOneAfter(s: Sender)
    requires s.Valid() && s.next > 0 && !s.finSent && 0 <= Room(s) < TWO64 && !s.Stuck()
    ensures var n := Min(Fitting(s), MAX_PAYLOAD_SIZE);
      var fin := FinFits(s) && n == Fitting(s);
      After(s, s.SendOne(), [DataSegment(s.isn, s.next, s.stream.Buffer()[..n], fin)], n, fin)
    ensures Fitting(s) == 0 ==> FinFits(s)
  {
    hide Wrap;
  }

  lemma AfterAfter(s: Sender, t: Sender, u: Sender, x: Segment, more: seq<Segment>, n: nat, m: nat, fin: bool)
    requires s.Valid() && n <= |s.stream.Buffer()| && After(s, t, [x], n, false)
    requires t.Valid() && m <= |t.stream.Buffer()| && After(t, u, more, m, fin)
    ensures n + m <= |s.stream.Buffer()| && After(s, u, [x] + more, n + m, fin)
  {
    assert s.out + [x] + more == s.out + ([x] + more);
    assert s.outstanding + [x] + more == s.outstanding + ([x] + more);
  }

  lemma RestAfter(s: Sender, t: Sender, x: Segment, m: nat)
    requires s.Valid() && t.Valid() && Room(s) >= 0 && m < Fitting(s) && After(s, t, [x], m, false)
    ensures t.next == s.next + m && t.isn == s.isn && t.finSent == s.finSent && 0 <= Room(t) <= Room(s)
    ensures t.WindowOpen() && Fitting(t) == Fitting(s) - m && FinFits(t) == FinFits(s)
    ensures t.stream.Buffer()[..Fitting(t)] == s.stream.Buffer()[..Fitting(s)][m..]
  {
  }

  /** With the SYN gone and no more in flight than allowed, fill_window sends the segmentation of what fits. */
  lemma {:induction false} FillWindowAfterSyn(s: Sender)
    requires s.Valid() && s.next > 0 && !s.finSent && 0 <= Room(s) < TWO64
    ensures var n, fin := Fitting(s), FinFits(s);
      After(s, s.FillWindow(), Segmentation(s.isn, s.next, s.stream.Buffer()[..n], fin), n, fin)
    decreases s.Work()
  {
    hide Segmentation, Wrap, After, Sender.SendOne, Sender.Stuck, FinFits, DataSegment;
    var n, fin := Fitting(s), FinFits(s);
    var data := s.stream.Buffer()[..n];
    if s.Stuck() {
      NothingToSend(s);
    } else {
      var t, m := s.SendOne(), Min(n, MAX_PAYLOAD_SIZE);
      SendOneAfter(s);
      s.SendOneReducesWork();
      if m == n {
        SegmentationOne(s.isn, s.next, data, fin);
        assert s.FillWindow() == t by { if t.WindowOpen() { NothingMore(s); } }
      } else {
        assert data[..m] == s.stream.Buffer()[..m];
        RestAfter(s, t, DataSegment(s.isn, s.next, data[..m], false), m);
        FillWindowAfterSyn(t);
        SegmentationMore(s.isn, s.next, data, fin);
        AfterAfter(s, t, t.FillWindow(), DataSegment(s.isn, s.next, data[..m], false),
          Segmentation(s.isn, t.next, data[m..], fin), m, n - m, fin);
      }
    }
  }

  lemma NothingToSend(s: Sender)
    requires s.Valid() && s.next > 0 && !s.finSent && 0 <= Room(s) < TWO64 && s.Stuck()
    ensures Fitting(s) == 0 && !FinFits(s) && Segmentation(s.isn, s.next, [], false) == []
    ensures After(s, s, [], 0, false)
  {
  }

  lemma NothingMore(s: Sender)
    requires s.Valid() && s.next > 0 && !s.finSent && 0 <= Room(s) < TWO64 && !s.Stuck()
    requires Fitting(s) <= MAX_PAYLOAD_SIZE && s.SendOne().WindowOpen()
    ensures s.SendOne().FillWindow() == s.SendOne()
  {
    hide Wrap;
    SendOneAfter(s);
  }

  /** The sender once its SYN is out. */
  function SynSent(s: Sender): Sender {
    if s.next > 0 then s
    else s.(next := 1, out := s.out + [Syn(s.isn)], outstanding := s.outstanding + [Syn(s.isn)],
            timer := s.timer.Start())
  }

  /** A call of fill_window, with no more in flight than allowed: the SYN if it is due, then the segmentation
      of as much of the stream as fits, with the FIN if there is room for it. */
  lemma FillWindowClosedForm(s: Sender)
    requires s.Valid() && !s.finSent && s.InFlight() <= s.EffectiveWindow()
    ensures var u := SynSent(s);
      && u.Valid() && Room(u) >= 0
      && var n, fin := Fitting(u), FinFits(u);
         After(u, s.FillWindow(), Segmentation(s.isn, u.next, u.stream.Buffer()[..n], fin), n, fin)
  {
    hide Wrap;
    var u := SynSent(s);
    if u.WindowOpen() || s.next > 0 {
      hide Segmentation;
      FillWindowAfterSyn(u);
    } else {
      assert Segmentation(s.isn, u.next, [], false) == [];
    }
  }

  function Payloads(segs: seq<Segment>): seq<byte> {
    if segs == [] then [] else segs[0].payload + Payloads(segs[1..])
  }

  /** The pieces put together are the data, and all but the last are of the maximum size. */
  lemma {:induction false} SegmentationConserves(isn: uint32, start: nat, data: seq<byte>, fin: bool)
    ensures var segs := Segmentation(isn, start, data, fin);
      && Payloads(segs) == data
      && (forall k :: 0 <= k < |segs| - 1 ==> |segs[k].payload| == 1452 && !segs[k].header.fin)
      && (segs != [] ==> |segs[|segs| - 1].payload| <= 1452 && segs[|segs| - 1].header.fin == fin)
    decreases |data|
  {
    hide Segmentation, Wrap;
    if |data| > MAX_PAYLOAD_SIZE {
      SegmentationMore(isn, start, data, fin);
      SegmentationConserves(isn, start + MAX_PAYLOAD_SIZE, data[MAX_PAYLOAD_SIZE..], fin);
    } else if data != [] || fin {
      SegmentationOne(isn, start, data, fin);
    } else {
      SegmentationNone(isn, start);
    }
  }

  /** More in flight than the window allows, and the difference wraps: one full segment goes out all the same. */
  lemma FillWindowOverfull(s: Sender)
    requires s.Valid() && s.next > 0 && !s.finSent && s.InFlight() > s.EffectiveWindow() && s.next < TWO63
    ensures var m := Min(|s.stream.Buffer()|, MAX_PAYLOAD_SIZE);
      if m == 0 then s.FillWindow() == s
      else After(s, s.FillWindow(), [DataSegment(s.isn, s.next, s.stream.Buffer()[..m], false)], m, false)
  {
    OverfullPayload(s);
    hide Wrap, Sender.PayloadSize;
  }

  lemma OverfullPayload(s: Sender)
    requires s.Valid() && s.InFlight() > s.EffectiveWindow() && s.next < TWO63
    ensures s.PayloadSize() == Min(|s.stream.Buffer()|, MAX_PAYLOAD_SIZE)
  {
  }

  /** Once the FIN is out, nothing is sent any more, however open or full the window is. */
  lemma FillWindowAfterFin(s: Sender)
    requires s.Valid() && s.finSent
    ensures s.FillWindow() == s
  {
  }

  /** fill_window ends within the window exactly when it began within it. */
  lemma FlowControl(s: Sender)
    requires s.Valid() && s.next < TWO63
    ensures var t := s.FillWindow();
      && t.window == s.window
      && (t.InFlight() <= Max(t.window, 1) <==> s.InFlight() <= Max(s.window, 1))
  {
    hide Segmentation;
    if !s.finSent {
      if s.InFlight() <= s.EffectiveWindow() {
        FillWindowClosedForm(s);
      } else {
        FillWindowOverfull(s);
      }
    }
  }

  /** It stops only when the FIN is out, the window is exactly full, or there is nothing to send for now. */
  lemma FillWindowIsMaximal(s: Sender)
    requires s.Valid() && s.InFlight() <= Max(s.window, 1)
    ensures var t := s.FillWindow();
      || t.finSent
      || t.InFlight() == Max(t.window, 1)
      || (t.stream.Buffer() == [] && !t.stream.ended)
  {
    hide Segmentation;
    if !s.finSent {
      FillWindowClosedForm(s);
    }
  }
}
