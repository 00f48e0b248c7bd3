/** The receiving half of a connection. */
module Receiving {
  import opened Widths
  import opened WrappingIntegers
  import opened Reassembly
  import opened ReassemblyTheory
  import opened Segments

  datatype Receiver = Receiver(asm: Assembler, isn: Option<uint32>) {
    ghost predicate Valid() {
      asm.Valid()
    }

    /** No 64-bit stream position overflows while a segment of this size is handled. */
    predicate Fits(seg: Segment) {
      asm.out.nread + asm.out.capacity + |seg.payload| < TWO64
    }

    /** Segments before the first SYN are dropped; after it, the payload goes to its stream index. */
    function Receive(seg: Segment): Receiver
      requires asm.out.Valid() && Fits(seg)
    {
      if isn.None? && !seg.header.syn then this else
      var base := if isn.None? then seg.header.seqno else isn.value;
      var index := (Unwrap(seg.header.seqno, base, |asm.out.data|) - 1 + if seg.header.syn then 1 else 0) % TWO64;
      Receiver(asm.Push(seg.payload, index, seg.header.fin), Some(base))
    }

    function Read(n: nat): Receiver
      requires asm.out.Valid()
    {
      this.(asm := asm.Read(n))
    }

    /** How many sequence numbers, SYN and FIN included, have been received without a gap. */
    function AbsoluteAck(): nat {
      if isn.None? then 0 else |asm.out.data| + 1 + if asm.out.ended then 1 else 0
    }

    function Ackno(): Option<uint32> {
      if isn.None? then None else Some(Wrap(AbsoluteAck(), isn.value))
    }

    function Window(): nat
      requires asm.out.Valid()
    {
      asm.out.Room()
    }
  }

  function Listening(capacity: nat): (r: Receiver)
    ensures r.Valid()
  {
    Receiver(Fresh(capacity), None)
  }

  class TCPReceiver {
    const reassembler: StreamReassembler
    var isn: Option<uint32>

    ghost predicate Valid()
      reads this, reassembler, reassembler.output
    {
      reassembler.Valid()
    }

    ghost function Model(): Receiver
      requires Valid()
      reads this, reassembler, reassembler.output
    {
      Receiver(reassembler.Model(), isn)
    }

    constructor (capacity: nat)
      ensures Valid() && fresh(reassembler) && fresh(reassembler.output)
      ensures Model() == Listening(capacity)
    {
      reassembler := new StreamReassembler(capacity);
      isn := None;
    }

    method SegmentReceived(seg: Segment)
      requires Valid() && Model().Fits(seg)
      modifies this, reassembler, reassembler.output
      ensures Valid()
      ensures Model() == old(Model()).Receive(seg)
    {
      hide Unwrap, Wrap, Assembler.Push, Assembler.Valid, Decode;
      if isn.None? {
        if !seg.header.syn {
          return;
        }
        isn := Some(seg.header.seqno);
      }
      var checkpoint := reassembler.output.writtenBytes;
      var absSeq := Unwrap(seg.header.seqno, isn.value, checkpoint);
      var streamIndex := (absSeq - 1 + if seg.header.syn then 1 else 0) % TWO64;
      reassembler.PushSubstring(seg.payload, streamIndex, seg.header.fin);
    }

    method Ackno() returns (a: Option<uint32>)
      requires Valid()
      ensures a == Model().Ackno()
    {
      if isn.None? {
        return None;
      }
      a := Some(Wrap(reassembler.output.writtenBytes + 1 + (if reassembler.output.endWrite then 1 else 0), isn.value));
    }

    method WindowSize() returns (w: nat)
      requires Valid()
      ensures w == Model().Window()
    {
      w := reassembler.capacity - |reassembler.output.buffer|;
    }
  }

  // ---------------------------------------------------------------------------
  // Every run of a receiver, whatever segments the peer makes up
  // ---------------------------------------------------------------------------

  /** A segment with arbitrary contents arrives, or the application reads. */
  ghost predicate Step(r: Receiver, s: Receiver) {
    && r.Valid()
    && ( || (exists seg: Segment :: r.Fits(seg) && s == r.Receive(seg))
         || (exists n: nat :: s == r.Read(n)))
  }

  ghost predicate Run(trace: seq<Receiver>, capacity: nat) {
    && trace != [] && trace[0] == Listening(capacity)
    && forall i :: 0 < i < |trace| ==> Step(trace[i - 1], trace[i])
  }

  /** `s` may come later than `r`: nothing acknowledged or promised by `r` is taken back. */
  ghost predicate Extends(r: Receiver, s: Receiver)
    requires r.Valid() && s.Valid()
  {
    && (r.isn.Some? ==> s.isn == r.isn)
    && r.asm.out.data <= s.asm.out.data
    && r.asm.out.nread <= s.asm.out.nread
    && r.asm.out.capacity == s.asm.out.capacity
    && (r.asm.out.ended ==> s.asm.out.ended)
  }

  lemma ReadExtends(r: Receiver, n: nat)
    requires r.Valid()
    ensures r.Read(n).Valid() && Extends(r, r.Read(n))
    ensures r.Read(n).isn == r.isn && r.Read(n).asm.out.data == r.asm.out.data
    ensures forall sent, final :: Agrees(r.Read(n).asm, sent, final) <==> Agrees(r.asm, sent, final)
  {
  }

  lemma StepExtends(r: Receiver, s: Receiver)
    requires Step(r, s)
    ensures s.Valid() && Extends(r, s)
  {
    hide Unwrap, Assembler.Push;
    if seg: Segment :| r.Fits(seg) && s == r.Receive(seg) {
      if s != r {
        var base := if r.isn.None? then seg.header.seqno else r.isn.value;
        var index := (Unwrap(seg.header.seqno, base, |r.asm.out.data|) - 1 + if seg.header.syn then 1 else 0) % TWO64;
        PushKeepsValid(r.asm, seg.payload, index, seg.header.fin);
      }
    }
  }

  lemma {:induction false} RunExtends(trace: seq<Receiver>, capacity: nat, i: nat, j: nat)
    requires Run(trace, capacity) && i <= j < |trace|
    ensures trace[i].Valid() && trace[j].Valid() && Extends(trace[i], trace[j])
  {
    hide Step, Assembler.Valid, Listening;
    if j == 0 {
    } else if i == j {
      RunExtends(trace, capacity, i - 1, j - 1);
      StepExtends(trace[j - 1], trace[j]);
    } else {
      RunExtends(trace, capacity, i, j - 1);
      StepExtends(trace[j - 1], trace[j]);
    }
  }

  /** In every run the first sequence number past the window is determined by what was read,
      memory stays within the capacity, and neither edge of the window ever moves back. */
  lemma WindowNeverRetreats(trace: seq<Receiver>, capacity: nat, i: nat, j: nat)
    requires Run(trace, capacity) && i <= j < |trace|
    requires trace[i].isn.Some?
    ensures trace[i].Valid() && trace[j].Valid()
    ensures trace[j].AbsoluteAck() + trace[j].Window()
         == trace[j].asm.out.nread + capacity + 1 + if trace[j].asm.out.ended then 1 else 0
    ensures trace[i].AbsoluteAck() <= trace[j].AbsoluteAck()
    ensures trace[i].AbsoluteAck() + trace[i].Window() <= trace[j].AbsoluteAck() + trace[j].Window()
    ensures |trace[j].asm.out.Buffer()| + |trace[j].asm.pending| <= capacity
  {
    RunExtends(trace, capacity, i, j);
    RunExtends(trace, capacity, 0, j);
    MemoryBound(trace[j].asm);
  }

  // ---------------------------------------------------------------------------
  // What a segment of any kind does
  // ---------------------------------------------------------------------------

  /** The initial sequence number that a segment is read against. */
  function Base(r: Receiver, seg: Segment): uint32 {
    if r.isn.None? then seg.header.seqno else r.isn.value
  }

  /** Where a segment starts, as an absolute sequence number. */
  function StartsAt(r: Receiver, seg: Segment): nat
    requires |r.asm.out.data| < TWO64
  {
    Unwrap(seg.header.seqno, Base(r, seg), |r.asm.out.data|)
  }

  /** A segment, whatever it carries, that starts at absolute sequence number `lo`. Its payload belongs at stream
      position lo - 1, or lo behind a SYN; a payload in place of the SYN belongs nowhere. Position by position the first
      arrival inside the window is kept. A FIN announces the end. */
  lemma ReceiveMeaning(r: Receiver, seg: Segment, lo: nat, p: nat)
    requires r.Valid() && r.Fits(seg) && (r.isn.Some? || seg.header.syn)
    requires lo == StartsAt(r, seg) < TWO63
    ensures var s, start := r.Receive(seg), lo - 1 + if seg.header.syn then 1 else 0;
      && s.isn == Some(Base(r, seg))
      && Known(s.asm, p) == (if Known(r.asm, p).Some? then Known(r.asm, p)
                             else if 0 <= start <= p < start + |seg.payload| && p < r.asm.out.nread + r.asm.out.capacity
                             then Some(seg.payload[p - start]) else None)
      && (p < |s.asm.out.data| ==> Known(s.asm, p).Some?) && Known(s.asm, |s.asm.out.data|).None?
      && s.asm.eof == (if seg.header.fin then Some((start + |seg.payload|) % TWO64) else r.asm.eof)
      && s.asm.out == r.asm.out.(data := s.asm.out.data, ended := s.asm.out.ended)
      && (s.asm.out.ended <==>
            r.asm.out.ended || s.asm.eof == Some(|r.asm.out.data|) || s.asm.eof == Some(|s.asm.out.data|))
  {
    hide Receiver.Receive, StartsAt, Assembler.Push, Assembler.Valid;
    var start := lo - 1 + if seg.header.syn then 1 else 0;
    PushedAt(r, seg, lo);
    PushMeaning(r.asm, seg.payload, start % TWO64, seg.header.fin, p);
  }

  lemma PushedAt(r: Receiver, seg: Segment, lo: nat)
    requires r.Valid() && r.Fits(seg) && (r.isn.Some? || seg.header.syn) && lo == StartsAt(r, seg) < TWO63
    ensures var start := lo - 1 + if seg.header.syn then 1 else 0;
      && r.Receive(seg) == Receiver(r.asm.Push(seg.payload, start % TWO64, seg.header.fin), Some(Base(r, seg)))
      && (start >= 0 ==> start % TWO64 == start)
      && (start < 0 ==> r.asm.out.nread + r.asm.out.capacity <= start % TWO64)
  {
    hide Unwrap, Assembler.Push;
  }

  /** Segments before the first SYN leave no trace. */
  lemma NothingBeforeSyn(r: Receiver, seg: Segment)
    requires r.Valid() && r.Fits(seg) && r.isn.None? && !seg.header.syn
    ensures r.Receive(seg) == r
  {
  }

  /** The first SYN sets the initial sequence number, and the data that comes with it is received at once, as much of
      it as there is room for. */
  lemma FirstSyn(capacity: nat, seg: Segment)
    requires Listening(capacity).Fits(seg) && seg.header.syn
    ensures var s, n := Listening(capacity).Receive(seg), Min(|seg.payload|, capacity);
      && s.isn == Some(seg.header.seqno) && s.asm.out.data == seg.payload[..n] && s.asm.pending == map[]
      && (s.asm.out.ended <==> seg.header.fin && |seg.payload| <= capacity)
      && s.AbsoluteAck() == 1 + n + if seg.header.fin && |seg.payload| <= capacity then 1 else 0
  {
    hide Unwrap, Receiver.Receive;
    var r, n := Listening(capacity), Min(|seg.payload|, capacity);
    var s := r.Receive(seg);
    assert StartsAt(r, seg) == 0 by { ReadAtItself(seg.header.seqno); }
    forall p: nat
      ensures Known(s.asm, p) == if p < n then Some(seg.payload[p]) else None
      ensures p < |s.asm.out.data| ==> Known(s.asm, p).Some?
    {
      ReceiveMeaning(r, seg, 0, p);
    }
    ReceiveMeaning(r, seg, 0, 0);
    StepExtends(r, s);
    assert Known(s.asm, |s.asm.out.data|).None? && Known(s.asm, n).None?;
    assert |s.asm.out.data| == n;
    forall p: nat | p < n
      ensures s.asm.out.data[p] == seg.payload[p]
    {
      assert Known(s.asm, p) == Some(seg.payload[p]);
    }
    NothingStored(s.asm);
  }

  lemma NothingStored(a: Assembler)
    requires a.Valid() && forall p: nat :: |a.out.data| <= p ==> Known(a, p).None?
    ensures a.pending == map[]
  {
    assert forall p :: p in a.pending ==> Known(a, p).Some?;
    assert a.pending.Keys == {};
  }

  lemma ReadAtItself(isn: uint32)
    ensures Unwrap(isn, isn, 0) == 0
  {
    UnwrapWrap(0, isn, 0);
  }

  // ---------------------------------------------------------------------------
  // The derived state
  // ---------------------------------------------------------------------------

  datatype ReceiverState = Error | Listen | SynReceived | FinReceived

  function Summary(r: Receiver): ReceiverState {
    if r.asm.out.error then Error
    else if r.Ackno().None? then Listen
    else if r.asm.out.ended then FinReceived
    else SynReceived
  }

  function Rank(x: ReceiverState): nat {
    match x
    case Error => 0
    case Listen => 1
    case SynReceived => 2
    case FinReceived => 3
  }

  /** The derived state in terms of what is acknowledged: nothing, the SYN and the bytes so far, or the FIN as well. */
  lemma SummaryMeans(r: Receiver)
    ensures Summary(r) == Error <==> r.asm.out.error
    ensures !r.asm.out.error ==>
      && (Summary(r) == Listen <==> r.AbsoluteAck() == 0)
      && (Summary(r) == SynReceived <==> r.AbsoluteAck() == |r.asm.out.data| + 1)
      && (Summary(r) == FinReceived <==> r.AbsoluteAck() == |r.asm.out.data| + 2)
  {
    hide Wrap;
  }

  /** In every run, as long as the stream has no error, the derived state never goes back. */
  lemma StateMovesForward(trace: seq<Receiver>, capacity: nat, i: nat, j: nat)
    requires Run(trace, capacity) && i <= j < |trace|
    requires !trace[j].asm.out.error
    ensures Rank(Summary(trace[i])) <= Rank(Summary(trace[j]))
  {
    hide Wrap, Step, Assembler.Valid;
    RunExtends(trace, capacity, i, j);
  }
}
