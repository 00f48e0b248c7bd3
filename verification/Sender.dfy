/** The sending half of a connection. */
module Sending {
  import opened Widths
  import opened WrappingIntegers
  import opened ByteStreams
  import opened Segments
  import opened Timers

  const MAX_PAYLOAD_SIZE: nat := 1452

  /** How many segments at the front of the queue end at or before `ackno`, each read back through its
      32-bit sequence number. */
  function CountAcked(segs: seq<Segment>, isn: uint32, next: uint64, ackno: nat): (k: nat)
    ensures k <= |segs|
    ensures k > 0 ==> EndOf(segs[k - 1], isn, next) <= ackno
  {
    if segs != [] && EndOf(segs[0], isn, next) <= ackno then 1 + CountAcked(segs[1..], isn, next, ackno) else 0
  }

  /** Where a segment ends, as computed from its 32-bit sequence number. */
  function EndOf(seg: Segment, isn: uint32, next: uint64): nat {
    (Unwrap(seg.header.seqno, isn, next) + seg.Length()) % TWO64
  }

  datatype Sender = Sender(
    isn: uint32, stream: Stream, next: nat, acked: nat, window: uint16,
    outstanding: seq<Segment>, out: seq<Segment>, timer: Timer, retransmissions: uint32, finSent: bool)
  {
    /** The timer runs exactly while something is outstanding. */
    predicate Valid() {
      stream.Valid() && acked <= next && (timer.running <==> outstanding != [])
    }

    function InFlight(): nat
      requires acked <= next
    {
      next - acked
    }

    /** A zero window is treated as one. */
    function EffectiveWindow(): nat {
      if window == 0 then 1 else window
    }

    predicate WindowOpen()
      requires acked <= next
    {
      EffectiveWindow() > InFlight()
    }

    /** The room left in the window is a 64-bit difference: it is enormous when too much is in flight. */
    function PayloadSize(): (n: nat)
      requires Valid()
      ensures n <= |stream.Buffer()|
    {
      Min(Min((EffectiveWindow() - InFlight()) % TWO64, |stream.Buffer()|), MAX_PAYLOAD_SIZE)
    }

    /** There is nothing to send, or no room to send it. */
    predicate Stuck()
      requires Valid()
    {
      finSent || (next > 0 && PayloadSize() == 0 && !(stream.Eof() && WindowOpen()))
    }

    function Transmit(seg: Segment): Sender {
      this.(out := out + [seg], outstanding := outstanding + [seg], timer := timer.Start())
    }

    /** The stream without the next payload, and the FIN accounted for if that empties an ended stream. */
    function TakeData(): Sender
      requires Valid()
    {
      var s := this.(stream := stream.Read(PayloadSize()), next := next + PayloadSize());
      var fin := s.stream.Eof() && s.WindowOpen();
      s.(finSent := fin, next := s.next + if fin then 1 else 0)
    }

    /** One segment: the SYN, or as much data as fits, with the FIN if that empties an ended stream. */
    function SendOne(): (s: Sender)
      requires Valid() && !Stuck()
      ensures s.Valid()
    {
      if next == 0 then
        this.(next := 1).Transmit(Segment(BLANK.(syn := true, seqno := isn), []))
      else
        TakeData().Transmit(Segment(BLANK.(fin := TakeData().finSent, seqno := Wrap(next, isn)),
                                    stream.Buffer()[..PayloadSize()]))
    }

    /** What is left to send; every segment sent reduces it. */
    function Work(): nat
      requires Valid()
    {
      |stream.Buffer()| + (if next == 0 then 1 else 0) + (if finSent then 0 else 1)
    }

    lemma SendOneReducesWork()
      requires Valid() && !Stuck()
      ensures SendOne().Work() < Work()
    {
    }

    function FillWindow(): (s: Sender)
      requires Valid()
      ensures s.Valid()
      decreases Work()
    {
      if Stuck() then this else
      var s := SendOne();
      if s.WindowOpen() then s.FillWindow() else s
    }

    function AckReceived(ackno: uint32, win: uint16): (s: Sender)
      requires Valid() && next < TWO64
      ensures s.Valid()
    {
      var absAckno := Unwrap(ackno, isn, next);
      if absAckno > next || absAckno < acked then this else
      var k := CountAcked(outstanding, isn, next, absAckno);
      var stopped := if k == |outstanding| then timer.Stop() else timer;
      var s := this.(window := win, outstanding := outstanding[k..], timer := stopped);
      if k == 0 then s else
      s.(acked := EndOf(outstanding[k - 1], isn, next), timer := stopped.Reset(timer.initial), retransmissions := 0)
    }

    function Tick(ms: uint64): (s: Sender)
      requires Valid()
      ensures s.Valid()
    {
      var t := timer.Pass(ms);
      if !t.Expired() then this.(timer := t) else
      this.(timer := if window > 0 then t.BackOff() else t.Reset(timer.initial),
            retransmissions := (retransmissions + 1) % TWO32,
            out := out + [outstanding[0]])
    }

    function SendEmptySegment(): Sender {
      this.(out := out + [Segment(BLANK.(seqno := Wrap(next, isn)), [])])
    }

    function Write(data: seq<byte>): Sender
      requires stream.Valid()
    {
      this.(stream := stream.Write(data))
    }

    function EndInput(): Sender {
      this.(stream := stream.EndInput())
    }
  }

  function Closed(isn: uint32, capacity: nat, timeout: uint16): (s: Sender)
    ensures s.Valid()
  {
    Sender(isn, Empty(capacity), 0, 0, 1, [], [], Idle(timeout), 0, false)
  }

  class TCPSender {
    const isn: uint32
    const initialRetransmissionTimeout: uint16
    const stream: ByteStream
    const timer: RetransmissionTimer
    var segmentsOut: seq<Segment>
    var nextSeqno: nat
    var receiverAck: nat
    var receiverWindowSize: uint16
    var outstandingSegments: seq<Segment>
    var consecutiveRetransmissions: uint32
    var setFinFlag: bool

    ghost predicate Valid()
      reads this, stream, timer
    {
      stream.Valid() && timer.initRto == initialRetransmissionTimeout && Model().Valid()
    }

    ghost function Model(): Sender
      requires stream.Valid()
      reads this, stream, timer
    {
      Sender(isn, stream.Model(), nextSeqno, receiverAck, receiverWindowSize, outstandingSegments, segmentsOut,
             timer.Model(), consecutiveRetransmissions, setFinFlag)
    }

    constructor (capacity: nat, timeout: uint16, isn: uint32)
      ensures Valid() && fresh(stream) && fresh(timer)
      ensures Model() == Closed(isn, capacity, timeout)
    {
      this.isn, initialRetransmissionTimeout := isn, timeout;
      stream := new ByteStream(capacity);
      timer := new RetransmissionTimer(timeout);
      segmentsOut, outstandingSegments, nextSeqno, receiverAck := [], [], 0, 0;
      receiverWindowSize, consecutiveRetransmissions, setFinFlag := 1, 0, false;
    }

    function BytesInFlight(): int
      reads this
    {
      nextSeqno - receiverAck
    }

    method FillWindow()
      requires Valid()
      modifies this, stream, timer
      ensures Valid()
      ensures Model() == old(Model()).FillWindow()
      decreases Model().Work()
    {
      hide Sender.SendOne, Sender.Stuck, Sender.Work;
      var windowSize := if receiverWindowSize == 0 then 1 else receiverWindowSize;
      var sent := SendSegment(windowSize);
      if sent {
        old(Model()).SendOneReducesWork();
        if windowSize > BytesInFlight() {
          FillWindow();
        }
      }
    }

    /** The body of fill_window up to the recursive call; says whether a segment went out. */
    method SendSegment(windowSize: nat) returns (sent: bool)
      requires Valid() && windowSize == Model().EffectiveWindow()
      modifies this, stream, timer
      ensures Valid()
      ensures sent == !old(Model()).Stuck() && receiverWindowSize == old(receiverWindowSize)
      ensures Model() == if sent then old(Model()).SendOne() else old(Model())
    {
      hide Wrap;
      if setFinFlag {
        return false;
      }
      var segment: Segment;
      if nextSeqno == 0 {
        segment := Segment(BLANK.(syn := true, seqno := isn), []);
        nextSeqno := nextSeqno + 1;
      } else {
        var payloadSize;
        segment, payloadSize := NextData(windowSize);
        if !setFinFlag && payloadSize == 0 {
          return false;
        }
      }
      segmentsOut := segmentsOut + [segment];
      outstandingSegments := outstandingSegments + [segment];
      timer.StartTimer();
      return true;
    }

    /** The least of window room, buffered bytes and maximum payload; the room is a 64-bit difference. */
    method NextPayloadSize(windowSize: nat) returns (n: nat)
      requires Valid() && windowSize == Model().EffectiveWindow()
      ensures n == Model().PayloadSize()
    {
      n := Min(Min((windowSize - BytesInFlight()) % TWO64, |stream.buffer|), MAX_PAYLOAD_SIZE);
    }

    /** Takes the payload of the next segment from the stream and sets its FIN if that is due. */
    method NextData(windowSize: nat) returns (segment: Segment, payloadSize: nat)
      requires Valid() && windowSize == Model().EffectiveWindow() && !setFinFlag
      modifies this`nextSeqno, this`setFinFlag, stream
      ensures stream.Valid() && payloadSize == old(Model()).PayloadSize()
      ensures Model() == old(Model()).TakeData()
      ensures segment == Segment(BLANK.(fin := setFinFlag, seqno := Wrap(old(nextSeqno), isn)),
                                 old(stream.buffer)[..payloadSize])
    {
      hide Wrap, Sender.PayloadSize, Stream.Read, Stream.Buffer, ByteStream.Valid;
      payloadSize := NextPayloadSize(windowSize);
      var payload := stream.Read(payloadSize);
      segment := Segment(BLANK.(seqno := Wrap(nextSeqno, isn)), payload);
      nextSeqno := nextSeqno + payloadSize;
      var last := stream.buffer == [] && stream.endWrite;
      if last && windowSize > BytesInFlight() {
        segment := segment.(header := segment.header.(fin := true));
        setFinFlag := true;
        nextSeqno := nextSeqno + 1;
      }
    }

    method AckReceived(ackno: uint32, windowSize: uint16)
      requires Valid() && nextSeqno < TWO64
      modifies this, timer
      ensures Valid()
      ensures Model() == old(Model()).AckReceived(ackno, windowSize)
    {
      hide Unwrap, EndOf;
      var absAckno := Unwrap(ackno, isn, nextSeqno);
      if absAckno > nextSeqno || absAckno < receiverAck {
        return;
      }
      receiverWindowSize := windowSize;
      var isAckUpdate := PopAcked(absAckno);
      if outstandingSegments == [] {
        timer.StopTimer();
      }
      if isAckUpdate {
        timer.SetTimeout(initialRetransmissionTimeout);
        timer.SetAccumulateTime(0);
        consecutiveRetransmissions := 0;
      }
    }

    /** The loop over the queue: pops the segments that end at or before `absAckno`. */
    method PopAcked(absAckno: nat) returns (isAckUpdate: bool)
      requires nextSeqno < TWO64
      modifies this`outstandingSegments, this`receiverAck
      ensures var k := CountAcked(old(outstandingSegments), isn, nextSeqno, absAckno);
        && isAckUpdate == (k > 0)
        && outstandingSegments == old(outstandingSegments)[k..]
        && receiverAck == if k == 0 then old(receiverAck) else EndOf(old(outstandingSegments)[k - 1], isn, nextSeqno)
    {
      hide EndOf;
      isAckUpdate := false;
      ghost var queue := outstandingSegments;
      ghost var k := 0;
      while outstandingSegments != []
        modifies this`outstandingSegments, this`receiverAck
        invariant 0 <= k <= |queue| && outstandingSegments == queue[k..]
        invariant isAckUpdate <==> k > 0
        invariant receiverAck == if k == 0 then old(receiverAck) else EndOf(queue[k - 1], isn, nextSeqno)
        invariant CountAcked(queue, isn, nextSeqno, absAckno)
               == k + CountAcked(outstandingSegments, isn, nextSeqno, absAckno)
        decreases |outstandingSegments|
      {
        var end := EndOf(outstandingSegments[0], isn, nextSeqno);
        if end <= absAckno {
          receiverAck := end;
          isAckUpdate := true;
          outstandingSegments := outstandingSegments[1..];
          k := k + 1;
        } else {
          break;
        }
      }
    }

    method Tick(ms: uint64)
      requires Valid()
      modifies this, timer
      ensures Valid()
      ensures Model() == old(Model()).Tick(ms)
    {
      var expired := timer.CheckTimeout(ms);
      if expired {
        if receiverWindowSize > 0 {
          timer.HandleTimeout();
        } else {
          timer.SetTimeout(initialRetransmissionTimeout);
          timer.SetAccumulateTime(0);
        }
        consecutiveRetransmissions := (consecutiveRetransmissions + 1) % TWO32;
        segmentsOut := segmentsOut + [outstandingSegments[0]];
      }
    }

    method SendEmptySegment()
      requires Valid()
      modifies this`segmentsOut
      ensures Valid()
      ensures Model() == old(Model()).SendEmptySegment()
    {
      segmentsOut := segmentsOut + [Segment(BLANK.(seqno := Wrap(nextSeqno, isn)), [])];
    }
  }
}
