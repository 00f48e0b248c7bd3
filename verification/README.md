# A verified model of the sponge TCP implementation

The project models the two halves of a TCP connection as sponge implements them, and the wire format they
share, and proves what they promise each other.

* **Transport.** `TCPSender` with its retransmission timer cuts a byte stream into segments, keeps the
  unacknowledged ones queued and resends the oldest. `TCPReceiver` with its stream reassembler turns 32-bit
  sequence numbers back into stream positions and reassembles the stream in a sliding bitmap window. One sender
  and one receiver are then composed over a network that may lose, duplicate, delay and reorder everything.
* **Wire format.** TCP headers and segments are serialized and parsed, protected by the Internet checksum. The
  composed machine sends every segment through this format.

## How the model is built

Each class of the implementation exists twice. The imperative form is a Dafny class (`ByteStream`,
`StreamReassembler`, `TCPReceiver`, `RetransmissionTimer`, `TCPSender`, `InternetChecksum`, `NetParser`) whose
methods update fields, loop and recurse as the code does. The abstract form is a datatype with a function for each
operation. Every method is proved equal to its function; all theorems about runs are about the functions.
The abstract reassembler is a sparse map from stream index to byte, so for that class the proof is a data
refinement from two sliding deques.

| file | contents |
|---|---|
| `Widths.dfy`, `WrappingIntegers.dfy` | fixed-width integers; `wrap`, `unwrap` |
| `ByteStream.dfy` | the bounded byte stream |
| `Reassembler.dfy`, `ReassemblyTheory.dfy` | the reassembler, its refinement, its guarantees |
| `Receiver.dfy` | the receiver and its runs |
| `Timer.dfy`, `Sender.dfy` | the timer and the sender |
| `SenderInvariant.dfy`, `SenderRuns.dfy` | the tiling invariant and every run of a sender |
| `FillWindowTheory.dfy` | closed form of `fill_window` |
| `BackOff.dfy`, `OnTime.dfy` | back-off and probing over runs: lower bounds on the time they take, and upper bounds |
| `Segment.dfy`, `NetCodec.dfy`, `Checksum.dfy`, `SegmentCodec.dfy`, `CodecTheory.dfy` | the wire format |
| `Connection.dfy`, `Progress.dfy` | the composed machine: its invariant, progress, completion |
| `Integrity.dfy` | safety of the composed machine under unconstrained acknowledgments |
| `DeadEnd.dfy`, `Witnesses.dfy` | when a transfer can no longer be completed; runs that reach the code's odd corners |

Stream positions and sequence counters are unbounded in the datatypes. Wrap-around is written out where the code
depends on it: in `wrap` and `unwrap` (including the detour through signed 64 bits), in the window difference of
`fill_window`, in the end of an excerpt and of a queued segment, in stream index `abs_seq - 1`, in the timeout and
the accumulated time, in the retransmission counter and in the checksum sum.

The repository has no class that joins a sender and a receiver. The glue is therefore part of the model: an
acknowledgment carries the ackno and the window cut to 16 bits, `snd.out` holds every segment ever sent and `acks`
every acknowledgment ever emitted, and the network delivers any of them at any time, any number of times or never.
A delivery is *timely* when the segment starts within 2^31 of the first missing byte. An acknowledgment is timely
when its position is less than 2^32 behind the next sequence number and the sender is in a state where
acknowledgments are safe: at most 2^31 in flight, or the oldest segment read back as lying ahead of everything sent.
Up to 2^32 in flight the second always holds (`SafeWithinOneTurn`), and it is exactly what `ack_received` needs to
keep its queue and its counters together (`AcksKeepTilingExactly`). `ShortStreamsAreUnconstrained` shows that
timeliness is no restriction at all for streams of up to 2^31 - 2 bytes. That the output is a prefix of what was
written does not need timely acknowledgments: `Integrity.Safety` holds for a machine in which any acknowledgment, even
one that was never emitted, may arrive at any time.

## Where the code differs from what one would expect

* `unwrap` returns the nearest number exactly while checkpoint + offset stays below 2^63, with one exception at a
  tie (`UnwrapNearest`, `UnwrapMisses`).
* `fill_window` respects the window exactly if no more than the window is in flight when it is called. Otherwise the
  unsigned difference wraps and one full segment goes out per call (`FlowControl`, `FillWindowOverfull`).
  An old acknowledgment that arrives late and takes the window back is enough to get there (`OverfullReached`).
* With more than 2^31 sequence numbers in flight no safe acknowledgment removes anything from the queue
  (`NothingPopsBeyondHalf`). Such a transfer is stuck for good: among the reachable states with an ended stream, those
  that no run with timely deliveries can complete are exactly those with more than 2^31 in flight
  (`CompletableExactly`). A writer that goes on past a shrunken window gets there from the start (`DeadEndReached`,
  `BeyondHalfReached`).
* Beyond 2^32 in flight the oldest segment may be read back one turn too far but not ahead of everything sent. Then
  some acknowledgment pops it and moves the acknowledged position past segments still queued
  (`AcksKeepTilingExactly`, `SafeExactly`). The same writer gets there too (`UnsafeAckReached`).
* Doubling the timeout overflows 64 bits after enough timeouts. The lower bound on the time that c timeouts take holds
  exactly if no timeout before the last has overflowed (`BackOffBoundExactly`). After 64 timeouts the timeout is zero
  and every tick retransmits (`BackOffEnds`), which every sender can be brought to (`TimeoutOverflowReached`).
* The accumulated time is a 64-bit sum. A tick that takes it past 2^64 misses the timeout unless the sum still reaches
  it after wrapping (`TickResendsExactly`).
* A timeout with a closed window sets the timeout back to its initial value (`ZeroWindowProbes`).
* `ByteStream::write` accepts data after `end_input`; a writer that does this moves the derived sender state
  backwards (`WriteAfterEndGoesBack`, `WriteAfterFinReached`).
* A segment without SYN at the initial sequence number gets stream index 2^64 - 1. Its payload is dropped, but a FIN in
  it announces the end of the stream one position before the length of that payload (`ReceiveMeaning`).
* `TCPSegment::parse` accepts a data offset below the minimum, although `TCPHeader::parse` reports it
  (`Accepts`, `ShortOffsetAccepted`).
* The 32-bit checksum sum may overflow. The round trip holds all the same, because 2^32 - 1 is a multiple of 65535
  (`ChecksumCancels`).

## Model

| member | source | states |
|---|---|---|
| `Integrity.Safety` | libsponge/tcp_receiver.cc:15-37 | in every state that sender, network and receiver can reach, with arbitrary acknowledgments arriving at the sender, the receiver's output is a prefix of the data of the run's writes, each write cut to the front that there was room for; its input has ended only if it is all of that data and the writer has ended the stream |
| `Integrity.StreamIsWritten` | libsponge/byte_stream.cc:20-28 | the sender's stream is exactly the data of the run's writes, each cut to the front that there was room for, and it has ended exactly if the writer ended it |
| `Integrity.AfterHonest` | libsponge/tcp_sender.cc:29-136 | every step, arbitrary acknowledgments included, keeps every segment sent or queued a true piece of the stream and the receiver in agreement with it |
| `Integrity.TimelyRunsAreRuns` | libsponge/tcp_sender.cc:76-81 | every run with timely acknowledgments is among the runs that safety is stated for |
| `Connection.NothingAcknowledgedIsLost` | libsponge/tcp_sender.cc:76-101 | in every reachable state the sender's acknowledged position is at most the receiver's, which is at most the next one; every position in between that is missing at the receiver lies in an outstanding segment |
| `Connection.ShortStreamsAreUnconstrained` | tests/fsm_loopback_win.cc:55-72 | up to 2^31 - 2 bytes, every segment and acknowledgment ever sent may be delivered in any order at any time |
| `Connection.NextKeeps` | libsponge/tcp_sender.cc:29-129 | every step of the composed machine keeps its invariant |
| `Connection.ReceiveAt` | libsponge/tcp_receiver.cc:15-26 | a timely segment of any honest peer, a SYN with data and FIN included, is pushed at the very index where its payload sits in the sent stream |
| `Connection.WireDelivers` | libsponge/tcp_helpers/tcp_segment.cc:12-45 | a segment of the sender arrives over the wire unchanged but for its checksum field |
| `Progress.LossFreeRound` | libsponge/tcp_sender.cc:86-129 | timeout, delivery and acknowledgment without loss strictly advance sender or receiver, over SYN, data and FIN; with room for the segment the sender gets past it |
| `Progress.FrontAdvances` | libsponge/stream_reassembler.cc:44-102 | a segment that starts at or before the first missing sequence number moves the receiver past itself, or as far as there is room; a SYN may carry data |
| `Progress.EveryTransferCanBeCompleted` | libsponge/tcp_sender.cc:29-129 | from every reachable state with at most 2^31 in flight, some run of at most 12(n + 2) + 1 steps completes the transfer of the n bytes written, whatever was lost before and whatever window was advertised |
| `Progress.EnoughTurnsComplete` | libsponge/tcp_sender.cc:29-129 | for every schedule of steps from a reachable state with an ended stream: once it contains as many turns as there are sequence numbers left to receive and to acknowledge, the transfer is complete, whatever other steps lie between the turns; a turn is fill_window, a read of all there is and, with something outstanding, a round without loss |
| `Progress.TurnsNeverBlock` | libsponge/tcp_sender.cc:29-71 | with at most 2^31 sequence numbers unacknowledged, sent or not, every schedule can be extended by another turn |
| `Progress.TurnPossible` | libsponge/tcp_sender.cc:29-129 | a turn can be taken if and only if fill_window leaves at most 2^31 in flight |
| `Progress.TurnReduces` | libsponge/tcp_sender.cc:29-129 | a turn strictly reduces what is left to receive and to acknowledge, or finds and leaves the transfer complete |
| `Progress.RemainingNeverGrows` | libsponge/tcp_sender.cc:76-101 | on an ended stream no step of the machine, lossy or not, takes back what receiver or sender has got to know |
| `DeadEnd.CompletableExactly` | libsponge/tcp_sender.cc:87-100 | in every reachable state with an ended stream: no run with timely deliveries completes the transfer if and only if more than 2^31 is in flight |
| `DeadEnd.DoomedForever` | libsponge/tcp_sender.cc:29-114 | with an ended stream and more than 2^31 in flight, every run stays in such states and none is complete |
| `Witnesses.DeadEndReached` | libsponge/tcp_sender.cc:47-100 | a run of the composed machine from its start leads to a state that no run can complete |
| `Witnesses.WindowShrinksUnderFlight` | libsponge/tcp_sender.cc:80-84 | a run of the composed machine from its start to a state with more in flight than the window allows, over a late acknowledgment that takes the window back |
| `Witnesses.SenderProjection` | libsponge/tcp_sender.cc:29-129 | what the sender sees of any run of the composed machine is a run of the sender alone |
| `SenderRuns.ReachableSender` | libsponge/tcp_sender.cc:27-128 | for arbitrary events, acknowledgments among them in every state where acknowledgments are safe (always with up to 2^32 in flight) and below position 2^62: the queue tiles what is in flight, bytes in flight are the sum of the queued lengths, the timer runs exactly while the queue is not empty, an empty queue has no retransmissions, accumulated time stays below a timeout that is not zero |
| `SenderRuns.SentHeadersArePlain` | libsponge/tcp_sender.cc:33-66 | every header ever sent holds sequence number, SYN and FIN, the minimal data offset, no other flag and zero in every other field |
| `SenderRuns.SendEmptyAnnounces` | libsponge/tcp_sender.cc:133-136 | an empty segment announces the next sequence number, takes up none and is not queued |
| `SenderRuns.FillWindowKeeps` | libsponge/tcp_sender.cc:29-71 | what a call sends is exactly what it adds to the queue; it touches neither acknowledgments, window nor written data, and starts the timer only if it sends |
| `SenderInvariant.SendOneCoherent` | libsponge/tcp_sender.cc:33-66 | each segment sent extends the tiling and carries the next bytes of the stream, with FIN only at its end |
| `SenderInvariant.FillWindowCoherent` | libsponge/tcp_sender.cc:29-71 | a whole call keeps the tiling |
| `SenderInvariant.AckPopsCoveredPrefix` | libsponge/tcp_sender.cc:76-101 | an acknowledgment in range takes over the window and pops exactly the segments it covers entirely; any other is ignored |
| `SenderInvariant.NothingPopsBeyondHalf` | libsponge/tcp_sender.cc:88-100 | with more than 2^31 in flight and the oldest segment read back ahead of everything sent (always so up to 2^32), an acknowledgment in range takes over the window and changes nothing else; any other changes nothing |
| `SenderInvariant.AcksKeepTilingExactly` | libsponge/tcp_sender.cc:76-101 | every acknowledgment, whatever its number and window, keeps the tiling if and only if acknowledgments are safe: at most 2^31 in flight, or the oldest segment read back ahead of everything sent |
| `SenderInvariant.SafeWithinOneTurn` | libsponge/tcp_sender.cc:88-93 | with at most 2^32 in flight acknowledgments are safe |
| `SenderInvariant.SafeExactly` | libsponge/tcp_sender.cc:88-93 | safety in terms of counters: at most 2^31 in flight, or the oldest segment longer than what is in flight less the nearest number of whole turns |
| `SenderInvariant.TickCoherent` | libsponge/tcp_sender.cc:117-129 | a tick keeps the tiling and sends nothing but the oldest outstanding segment |
| `SenderRuns.SummaryMeans` | libsponge/tcp_helpers/tcp_state.cc:17-33 | the state derived from counters is the one given by error, SYN, FIN and acknowledgment; the counter test agrees with the FIN flag |
| `SenderRuns.StateMovesForward` | libsponge/tcp_helpers/tcp_state.cc:17-33 | in every run the derived sender state never goes back |
| `SenderRuns.WriteAfterEndGoesBack` | libsponge/byte_stream.cc:20-28 | after the FIN, a write keeps the state from going back exactly if the SYN is still unacknowledged or the write has no effect |
| `Witnesses.WriteAfterFinReached` | libsponge/byte_stream.cc:20-28 | a run from a fresh sender to one past its FIN that a write of one byte takes back to the state after SYN |
| `FillWindowTheory.FillWindowClosedForm` | libsponge/tcp_sender.cc:29-71 | a whole call, in closed form: SYN if due, then the segmentation of as much of the stream as fits, FIN if it fits too |
| `FillWindowTheory.FillWindowAfterFin` | libsponge/tcp_sender.cc:36-36 | after the FIN a call changes nothing |
| `FillWindowTheory.SegmentationConserves` | libsponge/tcp_sender.cc:47-57 | the payloads put together are the data taken from the stream; all segments but the last carry exactly 1452 bytes and no FIN, the last one no more and the FIN if it is due |
| `FillWindowTheory.FlowControl` | libsponge/tcp_sender.cc:34-70 | a call ends within the window, zero counting as one, exactly if it began within it |
| `FillWindowTheory.FillWindowIsMaximal` | libsponge/tcp_sender.cc:34-70 | a call stops only with the FIN sent, the window exactly full, or an empty stream that has not ended |
| `FillWindowTheory.FillWindowOverfull` | libsponge/tcp_sender.cc:47-49 | beyond the window, one segment of up to the maximum payload goes out and no FIN |
| `Witnesses.OverfullReached` | libsponge/tcp_sender.cc:47-84 | a run from a fresh sender to one with more in flight than its window allows |
| `Witnesses.BeyondHalfReached` | libsponge/tcp_sender.cc:47-100 | a run from a fresh sender to one with an ended stream and more than 2^31 in flight |
| `Witnesses.UnsafeAckReached` | libsponge/tcp_sender.cc:88-100 | a run from a fresh sender to one where an acknowledgment removes the oldest segment alone, moves the acknowledged position past others and breaks the tiling |
| `BackOffTheory.BackOffBound` | libsponge/retransmission_timer.cc:5-34 | over any stretch of a run without newly acknowledged segments and with an open window, c timeouts take at least initial * (2^c - 1) milliseconds unless a timeout before the last overflowed; the timeout is initial * 2^c exactly while that fits 64 bits |
| `BackOffTheory.BackOffBoundExactly` | libsponge/retransmission_timer.cc:19-34 | the lower bound on the time holds for all such stretches with c timeouts if and only if initial * 2^(c - 1) fits 64 bits |
| `BackOffTheory.BackOffEnds` | libsponge/retransmission_timer.cc:19-34 | after 64 or more timeouts the timeout is zero, and for as long as nothing is acknowledged and the window is open every tick times out and resends the oldest segment |
| `BackOffTheory.TimeoutOverflowReached` | libsponge/retransmission_timer.cc:19-23 | from every fresh sender a run leads to a running timer whose timeout is zero |
| `BackOffTheory.ZeroWindowProbes` | libsponge/tcp_sender.cc:118-127 | with the window closed the timeout stays the initial one and c timeouts take at least c times that |
| `OnTime.TickResendsExactly` | libsponge/tcp_sender.cc:117-129 | a tick resends the oldest segment, counts and restarts the timer exactly if the 64-bit sum of the time has reached the timeout; otherwise it only adds to that time |
| `OnTime.TimeAccumulates` | libsponge/retransmission_timer.cc:25-34 | over any stretch without newly acknowledged segments: no tick times out exactly if all of them together fall short of the timeout, and then the time accumulated is their sum |
| `OnTime.BackOffOnTime` | libsponge/retransmission_timer.cc:19-34 | with ticks of at most g milliseconds, c timeouts with an open window mean that less than initial * (2^(c + 1) - 1) + c * (g - 1) milliseconds have passed |
| `OnTime.ProbesOnTime` | libsponge/tcp_sender.cc:118-127 | with ticks of at most g milliseconds, c timeouts with a closed window mean that less than initial * (c + 1) + c * (g - 1) milliseconds have passed |
| `BackOffTheory.AckResetsTimer` | libsponge/tcp_sender.cc:103-113 | whatever is popped, the timer is at its initial timeout with no time accumulated, runs exactly if something is left, and the count is zero; if nothing is popped all of this stays |
| `BackOffTheory.TimerStartsAfresh` | libsponge/tcp_sender.cc:103-113 | sending into an empty queue and a popping acknowledgment leave a timer that starts from the initial timeout |
| `ReassemblyTheory.PushMeaning` | libsponge/stream_reassembler.cc:29-103 | for any input, position by position: the first byte to arrive inside the window is kept, and the output reaches exactly to the first unknown position; the output ends on reaching the end announced last |
| `ReassemblyTheory.OrderIndependence` | libsponge/stream_reassembler.cc:44-102 | with no reads in between, any order and repetition of the same pieces gives the same reassembler |
| `ReassemblyTheory.PushAllDetermined` | libsponge/stream_reassembler.cc:44-102 | that reassembler is determined by the union of the pieces cut to the window |
| `ReassemblyTheory.PushAgrees` | libsponge/stream_reassembler.cc:29-103 | pushing true excerpts of a stream never puts anything else into output or store, and the output ends only at the end of a final stream |
| `ReassemblyTheory.PushAdvances` | libsponge/stream_reassembler.cc:84-102 | an excerpt that starts at or before the first missing byte is output as far as the window reaches; the last one ends the output |
| `ReassemblyTheory.MemoryBound` | libsponge/stream_reassembler.cc:54-97 | buffered output and stored bytes together stay within the capacity |
| `Reassembly.StreamReassembler.PushSubstring` | libsponge/stream_reassembler.cc:29-103 | the two sliding deques, the counter and the end marker implement a push on the sparse map; the drained bytes always fit the output |
| `Reassembly.StreamReassembler.StoreInWindow` | libsponge/stream_reassembler.cc:53-82 | both copying loops store exactly the overlap with the window and keep bytes that are there |
| `Reassembly.StreamReassembler.TakeFront` | libsponge/stream_reassembler.cc:84-93 | the drain loop takes the bytes up to the first gap and slides both deques by as much |
| `Reassembly.StreamReassembler.UnassembledBytes` | libsponge/stream_reassembler.cc:105-105 | the number of stored bytes, each position counted once |
| `Reassembly.StreamReassembler.IsEmpty` | libsponge/stream_reassembler.cc:107-107 | whether nothing is stored |
| `Receiving.WindowNeverRetreats` | libsponge/tcp_receiver.cc:28-39 | in every run, whatever segments arrive: ackno plus window is bytes read plus capacity plus one, plus one once ended; neither edge of the window moves back; memory stays within the capacity |
| `Receiving.StateMovesForward` | libsponge/tcp_helpers/tcp_state.cc:5-15 | in every run the derived receiver state never goes back |
| `Receiving.SummaryMeans` | libsponge/tcp_helpers/tcp_state.cc:5-15 | the derived state is the one given by error and by what is acknowledged: nothing, SYN and bytes, or the FIN as well |
| `Receiving.ReceiveMeaning` | libsponge/tcp_receiver.cc:15-26 | for any segment after or with the first SYN, position by position: its payload is known afterwards where its sequence number puts it, behind the SYN if it has one, cut to the window and to what was not known before; its FIN announces the end |
| `Receiving.FirstSyn` | libsponge/tcp_receiver.cc:17-25 | a listening receiver takes its initial sequence number from the SYN and receives the data and FIN that come with it, as far as there is room |
| `Receiving.NothingBeforeSyn` | libsponge/tcp_receiver.cc:17-19 | a segment before the first SYN leaves no trace |
| `Receiving.TCPReceiver.SegmentReceived` | libsponge/tcp_receiver.cc:15-26 | the method implements the abstract step, including segments before the SYN |
| `Receiving.TCPReceiver.Ackno` | libsponge/tcp_receiver.cc:28-37 | the wrapped number of sequence numbers received without a gap, SYN and FIN included, or nothing before the SYN |
| `Receiving.TCPReceiver.WindowSize` | libsponge/tcp_receiver.cc:39-39 | the room left in the output |
| `Sending.TCPSender.FillWindow` | libsponge/tcp_sender.cc:29-71 | the recursive method terminates and implements the abstract step |
| `Sending.TCPSender.SendSegment` | libsponge/tcp_sender.cc:33-66 | the body of one recursion sends the next segment, or nothing if stuck |
| `Sending.TCPSender.AckReceived` | libsponge/tcp_sender.cc:76-114 | the method implements the abstract step on queue, window, timer and counter |
| `Sending.TCPSender.PopAcked` | libsponge/tcp_sender.cc:87-101 | the loop pops the counted segments and moves the acknowledged position to the end of the last one |
| `Sending.TCPSender.Tick` | libsponge/tcp_sender.cc:117-129 | the method implements the abstract step; it never reads an empty queue |
| `Sending.TCPSender.SendEmptySegment` | libsponge/tcp_sender.cc:133-136 | one segment without sequence numbers at the next sequence number |
| `Timers.RetransmissionTimer.StartTimer` | libsponge/retransmission_timer.cc:5-11 | starts from the initial timeout unless it is running |
| `Timers.RetransmissionTimer.CheckTimeout` | libsponge/retransmission_timer.cc:25-34 | lets time pass and says whether a running timer has expired |
| `Timers.RetransmissionTimer.HandleTimeout` | libsponge/retransmission_timer.cc:19-23 | doubles the timeout in 64 bits and counts from zero |
| `ByteStreams.ByteStream.Write` | libsponge/byte_stream.cc:20-28 | appends as much as fits to everything ever written, and says how much |
| `ByteStreams.ByteStream.Read` | libsponge/byte_stream.cc:55-67 | returns and consumes the oldest unread bytes, or marks the stream broken if there are too few |
| `ByteStreams.ByteStream.PopOutput` | libsponge/byte_stream.cc:41-50 | consumes the oldest unread bytes likewise |
| `ByteStreams.ByteStream.PeekOutput` | libsponge/byte_stream.cc:31-38 | returns the oldest unread bytes, as many as there are |
| `ByteStreams.WriteKeepsFront` | libsponge/byte_stream.cc:20-28 | what is added is the front of what was offered, and all of it unless that fills the stream |
| `ByteStreams.WriteInPieces` | libsponge/byte_stream.cc:20-28 | writing in two pieces or in one leaves the same stream, whether or not it fits |
| `ByteStreams.ReadTakesFront` | libsponge/byte_stream.cc:41-67 | what is read and what is left make up what there was; reading more than there is takes nothing and marks the stream |
| `ByteStreams.ReadInPieces` | libsponge/byte_stream.cc:41-67 | reading in two pieces or in one leaves the same stream |
| `WrappingIntegers.WrapUnwrap` | libsponge/wrapping_integers.cc:34-43 | wrapping undoes unwrapping, for every input |
| `WrappingIntegers.UnwrapWrap` | libsponge/wrapping_integers.cc:34-43 | within 2^31 of the checkpoint unwrapping undoes wrapping, exactly below 2^63 |
| `WrappingIntegers.UnwrapNearest` | libsponge/wrapping_integers.cc:34-43 | the result is a nearest one exactly if checkpoint + offset is below 2^63, or is a tie that the detour through signed numbers resolves upwards |
| `WrappingIntegers.UnwrapMisses` | libsponge/wrapping_integers.cc:37-41 | a checkpoint of 2^63 that wraps to n itself is missed by 2^32 |
| `WrappingIntegers.UnwrapTiesGoDown` | libsponge/wrapping_integers.cc:37-42 | of two equally near numbers the smaller is returned |
| `WrappingIntegers.Diff` | libsponge/wrapping_integers.hh:47-47 | the signed distance, within half a turn |
| `CodecTheory.RoundTrip` | libsponge/tcp_helpers/tcp_segment.cc:12-45 | for every segment and every pseudo-header sum: parsing the serialization is free of errors and returns the segment with its checksum filled in, exactly if the data offset is between 5 and 15 |
| `CodecTheory.ParseThenSerialize` | libsponge/tcp_helpers/tcp_segment.cc:30-45 | accepted bytes with a data offset of at least 5 are reproduced exactly if reserved bits and option bytes are zero and the checksum field is not 65535 (or all else sums to zero) |
| `CodecTheory.Accepts` | libsponge/tcp_helpers/tcp_segment.cc:12-23 | exactly which byte strings are accepted, and which of their headers are |
| `CodecTheory.ShortOffsetAccepted` | libsponge/tcp_helpers/tcp_header.cc:36-38 | twenty zero bytes are accepted although their data offset is zero |
| `CodecTheory.ParseFixed` | libsponge/tcp_helpers/tcp_header.cc:17-48 | parsing the fixed part of a header recovers every field and leaves what follows |
| `CodecTheory.ParseReadsFormat` | libsponge/tcp_helpers/tcp_header.cc:17-34 | for every input, short ones included: each field of the parsed header is the number at its position in the format of section 3.1 of RFC 793, or zero where input is missing |
| `CodecTheory.SerializeWritesFormat` | libsponge/tcp_helpers/tcp_header.cc:51-78 | a serialized header has every field at that position, its advertised length, and zeros for reserved bits and options |
| `CodecTheory.SegmentFormat` | libsponge/tcp_helpers/tcp_segment.cc:30-45 | a serialized segment is such a header with the checksum filled in, then the payload, and its checksum comes out right |
| `CodecTheory.AcceptedFormat` | libsponge/tcp_helpers/tcp_segment.cc:12-23 | an accepted segment is the header at the front of the input and, as payload, what follows it |
| `CodecTheory.DetectsByteErrors` | libsponge/tcp_helpers/tcp_segment.cc:12-17 | an accepted input with any one byte changed is refused |
| `SegmentCodec.HeaderFrom` | libsponge/tcp_helpers/tcp_header.cc:17-48 | the method implements the abstract header parse, short input included |
| `SegmentCodec.HeaderBytes` | libsponge/tcp_helpers/tcp_header.cc:51-78 | the method appends the fields and grows the header to its advertised size, or fails below the minimum |
| `SegmentCodec.SegmentFrom` | libsponge/tcp_helpers/tcp_segment.cc:12-23 | checksum first, then the header; only the parser's own error counts |
| `SegmentCodec.SegmentBytes` | libsponge/tcp_helpers/tcp_segment.cc:30-45 | header with the checksum of the whole segment, then the payload |
| `InternetChecksums.InternetChecksum.Add` | libsponge/util/util.cc:89-98 | adds the 16-bit words of the data in 32 bits, across odd boundaries |
| `InternetChecksums.InternetChecksum.Value` | libsponge/util/util.cc:100-108 | the folding loop computes the complement of the one's-complement residue of the sum |
| `InternetChecksums.ChecksumCancels` | libsponge/util/util.cc:100-108 | a sum plus its checksum never overflows 32 bits and has checksum zero |
| `InternetChecksums.CancelsUniquely` | libsponge/util/util.cc:100-108 | only the checksum, or 65535 in place of zero, cancels a sum |
| `InternetChecksums.AddInPieces` | libsponge/util/util.cc:89-98 | adding data in two pieces or at once gives the same sum, wherever the boundary falls |
| `NetCodec.NetParser.ParseInt` | libsponge/util/parser.cc:26-43 | reads a big-endian integer, or zero after an error, which is sticky |
| `NetCodec.NetParser.RemovePrefix` | libsponge/util/parser.cc:45-51 | skips bytes, or records that there are too few |
| `NetCodec.UnparseInt` | libsponge/util/parser.cc:53-60 | appends the big-endian bytes of an integer |
| `NetCodec.BytesThenBigEndian` | libsponge/util/parser.cc:26-60 | what was written is read back exactly if it fits |
| `NetCodec.BigEndianThenBytes` | libsponge/util/parser.cc:26-60 | what was read is written back |

## Left out

- Sockets, TUN devices, file descriptors, the event loop, addresses, `webget` and the doctests: wrappers over the operating system.
- Clock, random generator, hexdump and system-call wrapper in `util.cc`: the initial sequence number and the passing of time are parameters.
- Text output (`to_string`, `summary`, `as_string`, the state strings): states are enumerations.
- Reference counting and buffer lists: a buffer is a byte sequence.
- `TCPHeader::operator==`, `ByteStream::end_read` and `_set_syn_flag`: nothing depends on them.
- Counters beyond their 64-bit range: the composed machine stops at 2^60 written bytes and a receive capacity of 2^62, the reassembler at the point where bytes read, capacity and excerpt together reach 2^64.
- A second stream in the other direction, RST handling and connection teardown: the class that would do this is not part of the repository.
- Infinite runs: completion is stated for every finite schedule with enough turns, not as a limit under fairness.
- DeadEnd.CompletableExactly: is about runs with timely deliveries; acknowledgments in an unsafe state, which only more than 2^32 in flight allows, are not among them.
- OnTime.BackOffOnTime: presumes an initial timeout that is not zero and timeouts that fit 64 bits with one tick to spare; `TimeAccumulates` and `BackOffEnds` say what happens with a timeout of zero, `TickResendsExactly` what happens when the time wraps.
- Receiving.ReceiveMeaning: is about segments that start below absolute sequence number 2^63, where `unwrap` is exact.
- Reassembly.StreamReassembler.PushSubstring: does not model the overflow of 64-bit positions, which takes 2^64 bytes read, capacity and excerpt together.
- Receiving.TCPReceiver.SegmentReceived: does not model that overflow either, for the same reason.
- SenderRuns.ReachableSender: says nothing about runs in which an acknowledgment arrives in an unsafe state; in each of those states some acknowledgment breaks the tiling (`AcksKeepTilingExactly`).
