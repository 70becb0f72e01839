# A model of the EBP validator's core

The validator ingests several transport streams and checks that their Encoder Boundary Points line up. This project
models the parts of it whose correctness is not obvious from any one function, and proves what they are for:

- `SegmentAnalysis`, `LockStep`, `Segments`: the analysis thread, which trims the queues of all streams to a common
  start and then compares them in lock step until each has delivered its NULL. Proved: it ends, it uses every posted
  segment exactly once, and it passes a stream exactly when no check of its rounds fails, or none since another thread,
  of those that share the stream objects, last set the verdict to pass.
- `ByteLog`, `StreamBuffer`, `BufferProtocol`: the ring buffer between socket reader and parser. The class refines a log
  of bytes with a read and a peek position; the properties of all interleavings are proved of the log, and those of
  sleeping and waking of a protocol over it.
- `FifoProtocol`, `ThreadSafeFifo`: the blocking queue as a protocol of lock, wait, signal and unlock steps.
- `EmulationPrevention`: the H.264 emulation prevention codec as an inverse pair, with exact domains.
- `Bits`, `BitStream`: the bit reader and writer, and Exp-Golomb decoding.
- `HeapSort`, `SortedSearch`, `Memory`, `VArray`, `VQArray`: heapsort, binary search, the growable array and the deque
  with a moving gap, against sequences.
- `Chains`, `HashTable`, `HashTableIterator`: the chained hash table with rehashing, against a finite map, and its
  removing iterator.
- `SpliceSections`, `SpliceParser`, `SpliceSyntax`, `SpliceDispatch`, `SpliceList`, `SpliceLifecycle`, `SpliceEvents`:
  the life of SCTE-35 events, from the parser, which is compared with the syntax of the standard, through the lists to
  the table of retired events.

C code that updates objects in place is modelled by classes and arrays; each such method is proved against a function
on values, and the theorems are lemmas about those functions and about whole runs of them.

Where the code and its comments or intentions part, the model follows the code, and lemmas say exactly where it parts:

- `EmulationPrevention.DocumentedCapacityIff`, `DocumentedCapacityFitsIff`: the input lengths for which an output buffer
  of 4/3 of the input is always enough (`DocumentedCapacityTooSmall` is an input for which it is not).
- `EmulationPrevention.WholeOutputRoundTrip`: the leading 00 that the encoder writes is not counted in its zero run.
- `EmulationPrevention.EncoderOverrunsIff`: the inputs for which the encoder, whether it then fails or not, writes one
  byte past the size it was given (`FailingRunOverruns` is one of them).
- `Bits.ReadSeDecodesIff`: signed Exp-Golomb values are wrong from codeNum 2^31 - 1 on (`ReadSeWrong`).
- `FifoProtocol.ServedIffOneConsumer`: the queue hands out NULL, and its counters come apart, in some run exactly when a
  second thread consumes (`TwoConsumersPopNull` builds the run).
- `BufferProtocol.AttendedIffOneReader`: a sleeper on the ring buffer is left beside bytes or a disabled buffer in some
  run exactly when a second thread reads or peeks, also when nobody calls for no bytes
  (`AskingAttendedIffOneReader`); of two sleepers cb_disable always forgets one (`DisableForgetsSleeper`).
- `BufferProtocol.EmptyWriteAnswersZero`: a write of no bytes makes a sleeping reader answer 0, on which the ingest loop
  ends, although the buffer is not disabled.
- `LockStep.ClearHidesFailures`: when the operator clears the report while the analysis runs, a stream that has failed
  passes if no later check fails.
- `Segments.PresentIs`: a segment is not checked for its distance from the last one of its partition exactly when that
  was reset by an ingest thread in between (`ResetHidesDistance`).
- `SpliceList.SignalsStayAscendingIff`: a time signal with an adjustment can be put before an earlier one
  (`AdjustedSignalMisplaced`).
- `SpliceDispatch.CancellationIgnored`, `SpliceLifecycle.NoneDisappears`: no cancellation reaches a list, so a cancelled
  event is waited for until it matches or expires.
- `SpliceList.OtherwiseAddedLast`: the function that edits a list would add a cancellation of an event that is not in it.
- `SpliceSections.SectionPtsIsMeantIff`: component splices and time signals are waited for without their adjustment,
  which their admission and their retirement add.
- `SpliceSyntax.ParsedBackIff`: the parser expects times in the components of a splice that is immediate, where the
  standard has them in one that is not, so it reads no component splice of the standard (`ComponentsMisread`).
- `SpliceDispatch.AdmittedIff`: a time signal at 0 with an adjustment is waited for at 0.
- `SpliceLifecycle.MatchesIff`: a splice point earlier than the tolerance is never matched (`EarlySectionMissed`).

`dafny verify dfyconfig.toml` checks everything.

## Model

| member | source | states |
|---|---|---|
| SegmentAnalysis.Analyse | atstest/EBPSegmentAnalysisThread.c:47-312 | for any number of streams, any finite queues and any interference of other threads: the thread ends; every queue is emptied with as many pops as pushes; each segment is either discarded by the sync or compared in one round, once and in order; a stream passes exactly when it passed before and no check of its rounds fails, or, where others set the verdict meanwhile, when they set it to pass the last time and no check fails from there on |
| SegmentAnalysis.RunRounds | atstest/EBPSegmentAnalysisThread.c:69-305 | the main loop terminates, and at its end no stream has a segment left |
| SegmentAnalysis.Round | atstest/EBPSegmentAnalysisThread.c:70-305 | one round brings every stream from its state before round k to that before round k + 1, and asks to exit exactly when no stream had a segment for it |
| SegmentAnalysis.RoundOne | atstest/EBPSegmentAnalysisThread.c:84-304 | the turn of one stream leaves the other streams alone and hands on the values to compare with |
| SegmentAnalysis.NextMarkStep | atstest/EBPSegmentAnalysisThread.c:121-150 | comparing with what the round has set so far is comparing with the lowest stream still active |
| SegmentAnalysis.StreamInfo.Process | atstest/EBPSegmentAnalysisThread.c:120-302 | a segment clears the verdict exactly when it differs from the round's mark, has a bad SAP type or comes at the wrong distance |
| SegmentAnalysis.StreamInfo.Compare | atstest/EBPSegmentAnalysisThread.c:126-206 | PTS, partition and acquisition time, its presence included, are compared with the first segment of the round, which sets them |
| SegmentAnalysis.StreamInfo.CheckSapType | atstest/EBPSegmentAnalysisThread.c:208-298 | the verdict is cleared exactly when the SAP type is an error, disagrees with the EBP, exceeds the descriptor's maximum, or without a SAP flag is not 1 or 2 |
| SegmentAnalysis.StreamInfo.CheckDistanceFromLastPts | atstest/EBPSegmentAnalysisThread.c:442-488 | a described segment is checked against the last one of its partition, when there is one, and remembered in its place; others are neither |
| SegmentAnalysis.StreamInfo.Drop | atstest/EBPSegmentAnalysisThread.c:381-433 | the loop pops exactly the segments before the start, and the NULL too if nothing else is left |
| SegmentAnalysis.StreamInfo.Trim | atstest/EBPSegmentAnalysisThread.c:381-433 | the queue loses exactly its segments before the start, and its NULL too if nothing else is left |
| SegmentAnalysis.StreamInfo.Interfere | atstest/EBPIngestThreadCommon.c:1003-1003 | another thread makes the stream forget the last PTS of any partitions, and may set its verdict |
| SegmentAnalysis.SyncIncomingStreams | atstest/EBPSegmentAnalysisThread.c:314-439 | every queue is trimmed to the latest head PTS, or to 0 if that is later |
| SegmentAnalysis.PeekAll | atstest/EBPSegmentAnalysisThread.c:316-366 | the start is the latest head PTS; peeking takes nothing but the NULL of an empty queue |
| Segments.StartPtsIsLatest | atstest/EBPSegmentAnalysisThread.c:316-366 | the start is not before any head, and is a head or 0 |
| Segments.DropBelowIsMaximal | atstest/EBPSegmentAnalysisThread.c:381-433 | what is dropped is exactly the maximal prefix before the start |
| Segments.LatestLosesNothing | atstest/EBPSegmentAnalysisThread.c:410-430 | the queue with the latest head loses nothing |
| Segments.StartAtHeadIff | atstest/EBPSegmentAnalysisThread.c:370-434 | with increasing PTS a queue is left with the start at its head exactly when it contains the start |
| Segments.AllStartTogetherIff | atstest/EBPSegmentAnalysisThread.c:314-439 | all queues start together exactly when all contain the start |
| Segments.GetPartition | atstest/ebp.c:495-507 | the first partition with the id, if any |
| Segments.FirstPartitionIs | atstest/ebp.c:495-507 | what is found stands at the first place with the id, and nothing is found exactly when there is none |
| Segments.SapFailsIff | atstest/EBPSegmentAnalysisThread.c:208-298 | the four ways, in terms of the fields, in which a SAP type fails |
| Segments.DistanceFailsIff | atstest/EBPSegmentAnalysisThread.c:456-480 | a 64-bit PTS fails exactly when there is a last PTS other than 0 and the first partition with its id says that it is too far from the expected one |
| Segments.DistanceInRun | atstest/EBPSegmentAnalysisThread.c:442-488 | in a run it is the last described segment of the partition that decides, unless it has been forgotten |
| Segments.UndescribedPasses | atstest/EBPSegmentAnalysisThread.c:444-455 | without a descriptor that lists the partition nothing is asked |
| Segments.PresentAtFirst | atstest/EBPSegmentAnalysisThread.c:462-487 | the first described segment of a partition is checked against what was there before the run |
| Segments.PresentIs | atstest/EBPSegmentAnalysisThread.c:462-487 | a segment is checked against the last described one of its partition, whatever came in other partitions, unless another thread has had it forgotten since |
| Segments.ResetHidesDistance | atstest/EBPIngestThreadCommon.c:1111-1120 | after a reset the next segment of the partition passes at any distance |
| LockStep.LeaderIsLowest | atstest/EBPSegmentAnalysisThread.c:84-131 | the stream that a round compares with is the lowest one still active |
| LockStep.InStepIff | atstest/EBPSegmentAnalysisThread.c:126-206 | a segment agrees with that of the lowest active stream exactly when PTS and partition id are equal, and both or neither have an acquisition time, of the same seconds and fraction |
| LockStep.VerdictIff | atstest/EBPSegmentAnalysisThread.c:134-298 | the accumulated verdict is the conjunction over the rounds since other threads last set it |
| LockStep.VerdictParts | atstest/EBPSegmentAnalysisThread.c:134-298 | the verdict is that last set by other threads, that of the marks and SAP types since then, which depend on no interference, and that of the distances from what is remembered at the time |
| LockStep.ClearHidesFailures | tslib/ATSTestReport.c:90-90 | after a clearing of the verdicts no failure from before it counts |
| LockStep.AnalysedAtEnd | atstest/EBPSegmentAnalysisThread.c:69-305 | after its last round a stream is drained, each of its segments was used once, and its verdict is exact |
| LockStep.LostSegment | atstest/EBPSegmentAnalysisThread.c:126-150 | a stream that lacks one segment of the first stream is out of step in every round from there on and in none before |
| LockStep.SameSegmentsInStep | atstest/EBPSegmentAnalysisThread.c:126-206 | streams that carry the same segments as far as they go are in step in every round |
| ByteLog.StepValid | atstest/EBPStreamBuffer.c:155-353 | every locked section keeps read <= peek <= written and written - read <= size, and a disabled buffer stays disabled and takes no more bytes |
| ByteLog.GetAnswers | atstest/EBPStreamBuffer.c:155-274 | a read, and a peek, answers -99 exactly when the buffer is disabled and nothing is left for it, waits exactly when nothing is left and it is not, and else gets what it asks for or all that is left |
| ByteLog.ResumeAnswers | atstest/EBPStreamBuffer.c:204-274 | after a wait it gets what is there |
| ByteLog.TakeMoves | atstest/EBPStreamBuffer.c:251-262 | a peek moves its own cursor; a read moves both to the same place |
| ByteLog.WriteAnswers | atstest/EBPStreamBuffer.c:276-353 | a write answers -99 exactly on a disabled buffer, -1 exactly for lack of room, and else 0, and appends then alone |
| ByteLog.Run | atstest/EBPStreamBuffer.c:155-353 | so does every interleaving of them |
| ByteLog.StepDelivers | atstest/EBPStreamBuffer.c:155-274 | what a read or peek returns is the stretch of the log its cursor moves over |
| ByteLog.ReadsFollowLog | atstest/EBPStreamBuffer.c:150-274 | in every run the reads return exactly the logged bytes, in order |
| ByteLog.LogIsWrites | atstest/EBPStreamBuffer.c:276-353 | the log consists of exactly the bytes of the successful writes |
| ByteLog.PeeksFollowLog | atstest/EBPStreamBuffer.c:145-274 | between reads the peeks return consecutive bytes |
| ByteLog.PeeksForetellRead | atstest/EBPStreamBuffer.c:145-274 | what has been peeked since a read is what the next read begins with |
| ByteLog.PeeksInvisible | atstest/EBPStreamBuffer.c:145-262 | a run with its peeks taken out has the same outcomes for everything else |
| ByteLog.SpaceStays | atstest/EBPStreamBuffer.c:293-383 | space that the only writer has seen is still free at its next write, which cannot fail for lack of it |
| ByteLog.PacketsStayWhole | atstest/EBPStreamBuffer.c:155-353 | when all writes and requests are multiples of 188 so is every result |
| ByteLog.DrainAfterDisable | atstest/EBPStreamBuffer.c:97-182 | after disabling, a read answers -99 exactly when the reads have delivered all that was left |
| ByteLog.PeeksDrainAfterDisable | atstest/EBPStreamBuffer.c:97-182 | and a peek exactly when the peeks have, as long as nothing is read |
| BufferProtocol.ActorReturnsOrSleeps | atstest/EBPStreamBuffer.c:155-202 | a thread that acts sleeps afterwards exactly when it reads or peeks, nothing is left for it and the buffer is not disabled; one that was woken returns |
| BufferProtocol.OneIsWoken | atstest/EBPStreamBuffer.c:97-353 | of the others only one that sleeps is affected, woken with its request by cb_disable or a write that succeeds |
| BufferProtocol.StepAttends | atstest/EBPStreamBuffer.c:97-353 | with one reader no step leaves it asleep beside something to take or beside a disabled buffer |
| BufferProtocol.AttendedIffOneReader | atstest/EBPStreamBuffer.c:175-202 | in all runs nobody is left asleep like that exactly when at most one of the threads reads or peeks |
| BufferProtocol.AskingAttendedIffOneReader | atstest/EBPStreamBuffer.c:175-262 | the same of the runs in which nobody calls for no bytes, when there is room for two |
| BufferProtocol.StepServes | atstest/EBPStreamBuffer.c:175-202 | with one reader and no empty calls whoever is woken finds bytes to take or a disabled buffer |
| BufferProtocol.ZeroOnlyAfterDisable | atstest/EBPStreamIngestThread.c:98-98 | in all such runs a wait ends in the answer 0 exactly when nothing is left to take, and only after the buffer was disabled |
| BufferProtocol.EmptyWriteAnswersZero | atstest/EBPStreamBuffer.c:336-343 | a write of no bytes wakes a sleeper, which answers 0 on a buffer that is not disabled |
| BufferProtocol.SecondReaderForgets | atstest/EBPStreamBuffer.c:251-262 | for any second reader, a run in which its read takes the peek cursor back under a sleeping peeker, for whom no signal has come or follows; none of its calls is for no bytes when there is room for two |
| BufferProtocol.DisableForgetsSleeper | atstest/EBPStreamBuffer.c:107-109 | of any two sleepers one call of cb_disable leaves one asleep, which sleeps on in every continuation without another call |
| StreamBuffer.LeaderWraps | atstest/EBPStreamBuffer.c:325-331 | the difference of the traversal counters survives the wrapping of the writer's |
| StreamBuffer.FollowerWraps | atstest/EBPStreamBuffer.c:233-246 | and of a reader's |
| StreamBuffer.WindowSize | atstest/EBPStreamBuffer.c:390-404 | the size formula, with its unsigned product and wrapped counters, counts the bytes a cursor has still to see |
| StreamBuffer.WriteExtends | atstest/EBPStreamBuffer.c:315-334 | bytes stored one by one round the ring that fit come behind what a cursor has still to see and change none of it |
| StreamBuffer.ReadShrinks | atstest/EBPStreamBuffer.c:223-249 | the bytes ahead of a cursor are the first that it had still to see, and when it has moved over them it sees the rest |
| StreamBuffer.WindowWrite | atstest/EBPStreamBuffer.c:315-334 | a cursor sees the stored bytes behind those it saw before, whatever wraps |
| StreamBuffer.TwoStores | atstest/EBPStreamBuffer.c:315-334 | the two copies of a write do what storing byte by byte round the ring does |
| StreamBuffer.TwoFetches | atstest/EBPStreamBuffer.c:223-249 | the two copies of a read fetch the bytes round the ring |
| StreamBuffer.CircularBuffer.constructor | atstest/EBPStreamBuffer.c:41-79 | an empty log |
| StreamBuffer.CircularBuffer.Empty | atstest/EBPStreamBuffer.c:81-90 | an empty log again, still disabled if it was |
| StreamBuffer.CircularBuffer.Disable | atstest/EBPStreamBuffer.c:97-128 | the log event Disable |
| StreamBuffer.CircularBuffer.SizeInternal | atstest/EBPStreamBuffer.c:390-404 | the number of logged bytes from the cursor on |
| StreamBuffer.CircularBuffer.AvailableWriteSize | atstest/EBPStreamBuffer.c:380-383 | the space of the log |
| StreamBuffer.CircularBuffer.Store | atstest/EBPStreamBuffer.c:315-334 | the two copies store the bytes round the end of the ring |
| StreamBuffer.CircularBuffer.Write | atstest/EBPStreamBuffer.c:276-353 | the log event Write with its return code |
| StreamBuffer.CircularBuffer.CopyOut | atstest/EBPStreamBuffer.c:204-273 | the log event Resume; the caller's buffer holds the bytes returned and is otherwise unchanged |
| StreamBuffer.CircularBuffer.ReadOrPeek | atstest/EBPStreamBuffer.c:155-274 | the log event Get: an answer, or the decision to wait |
| FifoProtocol.StepKeepsHistory | atstest/ThreadSafeFIFO.c:78-192 | every step, of any number of threads, keeps the queue equal to what was pushed and not yet popped |
| FifoProtocol.FirstInFirstOut | atstest/ThreadSafeFIFO.c:78-192 | for any number of producers and consumers every run hands elements out in the order pushed, loses none, hands none to two pops, and its counters differ by the queue length less the pops that got NULL |
| FifoProtocol.StepKeepsLocks | atstest/ThreadSafeFIFO.c:84-113 | the mutex excludes |
| FifoProtocol.StepKeepsWakeUps | atstest/ThreadSafeFIFO.c:95-166 | a consumer past its wait finds an element, and one asleep beside an element has its signal still to come |
| FifoProtocol.OneConsumer | atstest/ThreadSafeFIFO.c:78-192 | in every run with one consumer: pushed = popped + queued, push_counter - pop_counter is the queue length, nobody gets NULL from an empty queue, no lost wake-up |
| FifoProtocol.PendingSignalWakes | atstest/ThreadSafeFIFO.c:95-113 | beside a nonempty queue the next step of the whole system wakes the sleeping consumer |
| FifoProtocol.PeekForetells | atstest/ThreadSafeFIFO.c:124-178 | a peek returns what the next pop returns |
| FifoProtocol.TwoConsumersPopNull | atstest/ThreadSafeFIFO.c:150-173 | for any two consumers among any number of threads, a run in which a pop returns NULL and the counters come apart |
| FifoProtocol.ServedIffOneConsumer | atstest/ThreadSafeFIFO.c:78-192 | every run is free of such NULLs and keeps its counters exactly when at most one of the threads is a consumer |
| ThreadSafeFifo.BackwardsInsert | atstest/ThreadSafeFIFO.c:95-95 | inserting at the front of the array appends to the queue |
| ThreadSafeFifo.ThreadSafeFifo.constructor | atstest/ThreadSafeFIFO.c:36-57 | an empty queue with both counters 0 |
| ThreadSafeFifo.ThreadSafeFifo.Push | atstest/ThreadSafeFIFO.c:94-97 | the element becomes the youngest |
| ThreadSafeFifo.ThreadSafeFifo.MustWait | atstest/ThreadSafeFIFO.c:149-157 | a caller waits exactly when the queue is empty |
| ThreadSafeFifo.ThreadSafeFifo.Take | atstest/ThreadSafeFIFO.c:168-178 | a pop takes the oldest element and counts, a peek only returns it |
| ThreadSafeFifo.ThreadSafeFifo.GetState | atstest/ThreadSafeFIFO.c:194-216 | the queue length |
| EmulationPrevention.UnescapeEscape | h264bitstream/h264_nal.c:199-303 | decoding undoes encoding, for every byte string |
| EmulationPrevention.EscapeUnescape | h264bitstream/h264_nal.c:199-303 | encoding undoes decoding exactly for accepted units that do not end in 00 00 03 |
| EmulationPrevention.UnescapeAcceptsConformant | h264bitstream/h264_nal.c:256-280 | the decoder accepts exactly what section 7.4.1 of ITU-T H.264 allows |
| EmulationPrevention.EscapeIsConformant | h264bitstream/h264_nal.c:207-231 | no encoding contains a forbidden pattern |
| EmulationPrevention.EscapeTail | h264bitstream/h264_nal.c:222-229 | the counter is the number of zeros the output ends in, and no encoding ends in 00 00 03 |
| EmulationPrevention.WholeOutputRoundTrip | h264bitstream/h264_nal.c:202-235 | the whole output, leading 00 included, decodes to 00 followed by the input exactly when the input does not begin with 00 and a byte of at most 03 |
| EmulationPrevention.WholeOutputConformant | h264bitstream/h264_nal.c:202-235 | and exactly when the whole output is free of forbidden patterns |
| EmulationPrevention.EscapeLength | h264bitstream/h264_nal.c:186-235 | n bytes grow to at most n + (n - 1) / 2, which zeros attain |
| EmulationPrevention.EncoderFailsIff | h264bitstream/h264_nal.c:209-213 | the encoder fails exactly when no slot is left at its last input byte |
| EmulationPrevention.EncoderCapacity | h264bitstream/h264_nal.c:205-234 | 1 + n + (n - 1) / 2 bytes are always enough to succeed and to stay within |
| EmulationPrevention.EncoderOverrunsIff | h264bitstream/h264_nal.c:209-230 | a run, failing or not, writes past its room exactly when it comes with one slot left to a byte that needs two, and by one byte |
| EmulationPrevention.FailingRunOverruns | h264bitstream/h264_nal.c:209-230 | a run that fails and has written past its room |
| EmulationPrevention.DocumentedCapacityTooSmall | h264bitstream/h264_nal.c:188-190 | an input for which the documented capacity makes the encoder fail |
| EmulationPrevention.DocumentedCapacityIff | h264bitstream/h264_nal.c:188-190 | the documented capacity guarantees success exactly for up to five bytes and for seven |
| EmulationPrevention.DocumentedCapacityFitsIff | h264bitstream/h264_nal.c:188-190 | it holds the whole output exactly for one, two and four bytes |
| EmulationPrevention.BufferHoldsIff | h264bitstream/h264_nal.c:205-230 | no write goes past the end of the buffer exactly when it has a byte to spare or the input does not overrun its room |
| EmulationPrevention.RbspToNal | h264bitstream/h264_nal.c:199-235 | the buffer holds 00 and the encoding of the converted input, and nothing behind it changes; -1 exactly when the conversion stopped early |
| EmulationPrevention.NalToRbsp | h264bitstream/h264_nal.c:250-303 | the decoded bytes, or -1 exactly when the unit is refused or does not fit; the sizes handed back |
| Bits.PutFieldsFrame | h264bitstream/bs.h:156-188 | writing fields changes no bit outside them and moves the cursor by their total width |
| Bits.FieldsRoundTrip | h264bitstream/bs.h:142-188 | any list of fields of widths up to 32 that fits reads back, through the 32-bit results of bs_read_u, as their values modulo 2^width |
| Bits.FieldReadsBack | h264bitstream/bs.h:142-188 | so does a single field |
| Bits.PutNumberClips | h264bitstream/bs.h:156-188 | a number that does not fit fills the buffer with its top bits and loses the others |
| Bits.ReadUeDecodes | h264bitstream/bs.h:227-237 | the codeNum of section 9.1 of ITU-T H.264, and exactly its code word is consumed |
| Bits.ScanZerosEnds | h264bitstream/bs.h:232-232 | the count of zeros ends at the first one, at 32, or at the end of the buffer |
| Bits.CodeWordLength | h264bitstream/bs.h:227-237 | a code word with k leading zeros has 2k + 1 bits |
| Bits.ReadUeAllDecodes | h264bitstream/bs.h:227-237 | a list of code words laid end to end is read back as the list |
| Bits.ReadSeDecodesIff | h264bitstream/bs.h:246-255 | the mapping of section 9.1.1 of ITU-T H.264 exactly up to codeNum 2^31 - 2 |
| Bits.ReadSeWrong | h264bitstream/bs.h:246-255 | the first value that is decoded wrongly |
| BitStream.WithBitBits | h264bitstream/bs.h:156-168 | the two assignments of a bit write set that bit and no other |
| BitStream.NumberOfByte | h264bitstream/bs.h:200-213 | the aligned fast path equals the bit-by-bit value |
| BitStream.BufferBitsPutByte | h264bitstream/bs.h:215-225 | so does the aligned write |
| BitStream.BitStream.constructor | h264bitstream/bs.h:79-86 | a cursor before the first bit |
| BitStream.BitStream.Eof | h264bitstream/bs.h:121-124 | no bit is left |
| BitStream.BitStream.ReadU1 | h264bitstream/bs.h:142-154 | the next bit; 0, and no move, at the end |
| BitStream.BitStream.ReadU | h264bitstream/bs.h:170-181 | the number in the next n bits, in 32 bits |
| BitStream.BitStream.ReadUll | h264bitstream/bs.h:334-341 | the same in 64 bits |
| BitStream.BitStream.ReadU8 | h264bitstream/bs.h:200-213 | the number in the next 8 bits, aligned or not |
| BitStream.BitStream.ReadUN | h264bitstream/bs.h:350-364 | the number in the next n bits, read byte by byte |
| BitStream.BitStream.CountZeros | h264bitstream/bs.h:231-234 | the zeros before the next one, at most 32, and the end of the buffer ends the count |
| BitStream.BitStream.ReadUe | h264bitstream/bs.h:227-237 | the value that the decoding lemmas speak of |
| BitStream.BitStream.ReadSe | h264bitstream/bs.h:246-255 | the signed value they speak of |
| BitStream.BitStream.WriteU1 | h264bitstream/bs.h:156-168 | one bit is replaced; nothing at the end |
| BitStream.BitStream.WriteU | h264bitstream/bs.h:183-188 | the n low bits replace the next n |
| BitStream.BitStream.WriteU8 | h264bitstream/bs.h:215-225 | the 8 low bits replace the next 8, aligned or not |
| BitStream.BitStream.WriteUN | h264bitstream/bs.h:366-371 | the n low bits replace the next n, written byte by byte |
| BitStream.BitStream.WriteFields | h264bitstream/bs.h:183-188 | a list of fields written by calls of bs_write_u |
| BitStream.BitStream.ReadFields | h264bitstream/bs.h:170-181 | the values that calls of bs_read_u return for a list of widths |
| BitStream.BitStream.WriteAndReadBack | h264bitstream/bs.h:142-188 | fields written by one cursor into a real buffer and read by another come back modulo 2^width |
| HeapSort.Sort | libstructures/varray.c:409-457 | under every total preorder the slots end up sorted, a permutation of what they were, and no other slot changes |
| HeapSort.Sift | libstructures/varray.c:431-454 | sinking an element from a hole restores the heap there and keeps the elements |
| HeapSort.HeapRoot | libstructures/varray.c:419-429 | the root of a heap is its largest element |
| HeapSort.ExtractStep | libstructures/varray.c:423-429 | moving it behind the heap keeps the rest sorted and above the heap |
| HeapSort.SiftStep | libstructures/varray.c:434-450 | moving the larger child up keeps the heap property outside the hole |
| SortedSearch.Search | libstructures/varray.c:350-379 | the search ends with -1 before all elements, or an element that is not above the key and either equals it or has a larger successor |
| SortedSearch.InsertKeepsSorted | libstructures/vqarray.h:209-216 | inserting behind the place found keeps the order and adds exactly the element |
| Memory.InsertDown | libstructures/vqarray.c:105-123 | moving the front half into the gap is insertion |
| Memory.InsertUp | libstructures/varray.c:109-123 | moving the back half up is insertion |
| Memory.RemoveUp | libstructures/vqarray.c:133-148 | letting the gap grow over the front half is deletion |
| Memory.RemoveDown | libstructures/varray.c:133-138 | moving the back half down is deletion |
| VArray.VArray.constructor | libstructures/varray.c:38-46 | an empty array |
| VArray.VArray.ExpandToLength | libstructures/varray.c:534-569 | room for the length asked for, contents kept |
| VArray.VArray.Get | libstructures/varray.c:80-84 | the element, or NULL outside the array |
| VArray.VArray.Set | libstructures/varray.c:93-99 | the element is replaced; beyond the end the array grows to hold it |
| VArray.VArray.Insert | libstructures/varray.c:109-123 | sequence insertion |
| VArray.VArray.Remove | libstructures/varray.c:133-138 | sequence deletion; nothing outside the array |
| VArray.VArray.Add | libstructures/varray.c:147-147 | the element comes last |
| VArray.VArray.Peek | libstructures/varray.c:175-175 | the last element, or NULL |
| VArray.VArray.Pop | libstructures/varray.c:162-167 | the last element leaves, or NULL |
| VArray.VArray.Sort | libstructures/varray.c:381-457 | the array is sorted and keeps its elements |
| VArray.VArray.BinarySearch | libstructures/varray.c:350-379 | the place of the key in a sorted array |
| VQArray.VQArray.constructor | libstructures/vqarray.c:36-45 | an empty deque |
| VQArray.VQArray.ExpandToLength | libstructures/vqarray.c:527-549 | start + length fits the buffer; contents kept while start moves |
| VQArray.VQArray.Get | libstructures/vqarray.h:120-127 | the element, or NULL outside the deque |
| VQArray.VQArray.Set | libstructures/vqarray.h:136-145 | the element is replaced; beyond the end the deque grows to hold it |
| VQArray.VQArray.Insert | libstructures/vqarray.c:105-123 | sequence insertion, whichever half moves |
| VQArray.VQArray.Remove | libstructures/vqarray.c:133-148 | sequence deletion, whichever half moves |
| VQArray.VQArray.Add | libstructures/vqarray.h:154-154 | the element comes last |
| VQArray.VQArray.Unshift | libstructures/vqarray.h:184-184 | the element comes first |
| VQArray.VQArray.Pop | libstructures/vqarray.h:169-169 | the last element leaves, or NULL |
| VQArray.VQArray.Shift | libstructures/vqarray.h:192-192 | the first element leaves, or NULL |
| VQArray.VQArray.BinarySearch | libstructures/vqarray.c:311-340 | the place of the key in a sorted deque |
| VQArray.VQArray.InsertSorted | libstructures/vqarray.h:209-216 | a sorted deque stays sorted and gains exactly the element |
| VQArray.VQArray.Sort | libstructures/vqarray.c:373-450 | the deque is sorted and keeps its elements |
| HashTable.HashTable.constructor | libstructures/hashtable.c:65-87 | the empty map |
| HashTable.HashTable.Count | libstructures/hashtable.c:161-164 | the number of keys of the map, which the chains add up to |
| HashTable.HashTable.Expand | libstructures/hashtable.c:103-158 | the next size, if there is one, every entry in its new bucket, the same map |
| HashTable.MoveAll | libstructures/hashtable.c:118-130 | relinking every chain moves each entry to the bucket its stored hash selects and loses none |
| HashTable.HashTable.Insert | libstructures/hashtable.c:167-189 | an absent key is added to the map, and the table has then a size whose load limit it keeps, or the largest |
| HashTable.HashTable.Search | libstructures/hashtable.c:193-207 | the value of the key, or NULL exactly when the map has none |
| HashTable.HashTable.Remove | libstructures/hashtable.c:211-241 | the key leaves the map and its value is returned |
| HashTable.HashTable.GetKeyArray | libstructures/hashtable.c:279-303 | exactly the keys of the map, each once, fill the array |
| HashTable.KeysOnce | libstructures/hashtable.c:279-303 | the keys met bucket by bucket are those of the map without repetition |
| HashTable.SoundInsert | libstructures/hashtable.c:178-187 | an absent key at the head of its bucket extends the map and keeps every entry in its bucket |
| HashTable.SoundRemove | libstructures/hashtable.c:224-236 | an unlinked entry takes its key out of the map and keeps the others in their buckets |
| HashTable.MovingDone | libstructures/hashtable.c:118-130 | when the old table is empty the new one stands for the same map |
| HashTableIterator.HashTableIterator.constructor | libstructures/hashtable_itr.c:47-69 | the iterator stands on the first entry, if there is one |
| HashTableIterator.HashTableIterator.Key | libstructures/hashtable_itr.c:83-87 | the key of the entry it stands on |
| HashTableIterator.HashTableIterator.Advance | libstructures/hashtable_itr.c:99-133 | it moves on by exactly one entry and keeps parent the predecessor in the chain |
| HashTableIterator.HashTableIterator.Remove | libstructures/hashtable_itr.c:143-168 | exactly that entry goes, the iterator stands on its successor, and parent is again the predecessor in the chain, after any number of removals |
| HashTableIterator.NextBucket | libstructures/hashtable_itr.c:115-130 | going on to the next bucket skips no entry |
| HashTableIterator.WalkVisitsAll | libstructures/hashtable_itr.c:99-168 | whatever is removed on the way, a walk visits every entry once and leaves exactly the others |
| HashTableIterator.KeptAre | libstructures/hashtable_itr.c:99-168 | what it leaves are exactly the entries not chosen for removal |
| HashTableIterator.WalkTable | libstructures/hashtable_itr.c:99-168 | the same of a real walk over a table |
| SpliceSections.GetScte35Pts | atstest/EBPIngestThreadCommon.c:1198-1246 | the adjusted time of a program splice, the time of the first component for the stream, or the unadjusted time of a time signal; 0 otherwise |
| SpliceSections.SectionPtsIs | atstest/EBPIngestThreadCommon.c:1198-1246 | the same in terms of the fields: the first component for the stream with a specified time other than 0 decides |
| SpliceSections.GetLatestPts | atstest/scte35.c:863-897 | the time with which an event is retired |
| SpliceSections.LatestOfIsMaximum | atstest/scte35.c:881-892 | for components it is the latest of their adjusted times |
| SpliceSections.LatestPtsIs | atstest/scte35.c:863-897 | the time an event is retired with is the adjusted one of a program splice, or the latest adjusted one of its components, specified or not, and 0 without any |
| SpliceSections.SectionPtsIsMeantIff | atstest/EBPIngestThreadCommon.c:1198-1246 | the time waited for is the adjusted one exactly when nothing is adjusted, the splice is for the whole program, or there is no time for the stream |
| SpliceSections.SectionPtsIsSmall | atstest/EBPIngestThreadCommon.c:1198-1246 | no time of a section overflows when it is adjusted |
| SpliceList.EventsOnce | atstest/EBPIngestThreadCommon.c:1287-1345 | any sequence of additions, each storing any copy the source can make, keeps at most one entry per event |
| SpliceList.EntriesOfAdded | atstest/EBPIngestThreadCommon.c:1290-1345 | how an addition changes the number of entries of every event |
| SpliceList.ListedEventAdded | atstest/EBPIngestThreadCommon.c:1290-1313 | a section for a listed event takes the place of its first entry, or takes it out if it cancels the event; nothing else changes |
| SpliceList.OtherwiseAddedLast | atstest/EBPIngestThreadCommon.c:1339-1345 | a section for an event that is not listed, cancelled or not, comes last |
| SpliceList.SignalAdded | atstest/EBPIngestThreadCommon.c:1274-1337 | a time signal comes before the first one that is not before it, or last, unless they agree or it has no time |
| SpliceList.AddedKeeps | atstest/EBPIngestThreadCommon.c:1287-1345 | no entry leaves but one of the event that is named |
| SpliceList.LastCopyStands | atstest/EBPIngestThreadCommon.c:1287-1345 | after any additions an event's entry is the copy of the last section that named it, if that did not cancel it |
| SpliceList.CancelRemovesEntry | atstest/EBPIngestThreadCommon.c:1293-1313 | the branch for a cancellation removes the entry of the event and that alone; no parsed section takes it |
| SpliceList.SignalsOfAdded | atstest/EBPIngestThreadCommon.c:1316-1337 | a time signal is placed among the times whatever events stand between them |
| SpliceList.OthersKeepSignals | atstest/EBPIngestThreadCommon.c:1290-1315 | other sections leave the times alone |
| SpliceList.SignalsStayAscendingIff | atstest/EBPIngestThreadCommon.c:1316-1345 | the times stay strictly ascending exactly when the adjustment does not misplace the new one, so always without adjustment |
| SpliceList.UnadjustedSignalsAscend | atstest/EBPIngestThreadCommon.c:1248-1346 | any sequence of unadjusted additions keeps the times strictly ascending |
| SpliceList.AdjustedSignalMisplaced | atstest/EBPIngestThreadCommon.c:1320-1336 | an adjusted time signal that is put before an earlier one |
| SpliceParser.ParseSpliceInsert | atstest/scte35.c:615-660 | event id, cancellation bit, program time and components are those in the bits, and whatever the bits are the section has the shape that the dispatch lemmas assume |
| SpliceParser.ParseComponents | atstest/scte35.c:637-647 | as many components as the count says, or no list |
| SpliceParser.ParseSpliceTime | atstest/scte35.c:781-797 | a specified time is the number in the 33 bits behind the reserved ones, any other is 0; the cursor moves over exactly its bits |
| SpliceParser.SpliceInsertAtParsed | atstest/scte35.c:615-660 | whatever the bits are, a cancellation has neither the program flag nor components, and only a program splice has a time of its own |
| SpliceSyntax.ParsedBackIff | atstest/scte35.c:615-660 | a splice_insert in the syntax of SCTE 35 is read back exactly when it has no components or they have times when it is immediate |
| SpliceSyntax.ComponentsMisread | atstest/scte35.c:799-810 | so one whose components have times when it is not immediate, as in the standard, is read back exactly when it has none |
| SpliceDispatch.CountAdmissions | atstest/EBPIngestThreadCommon.c:96-207 | how often a section is added to the lists of a stream |
| SpliceDispatch.AdmissionsAre | atstest/EBPIngestThreadCommon.c:122-207 | a program splice and a time signal are added once if their adjusted time is not 0, any other splice once for each component with a time that names the stream |
| SpliceDispatch.RepeatedIsLast | atstest/EBPIngestThreadCommon.c:158-185 | several admissions of a splice come to the same as the last |
| SpliceDispatch.ArrivalAddsOnce | atstest/EBPIngestThreadCommon.c:96-207 | so a section that arrives is in effect added once to every list that it is admitted to |
| SpliceDispatch.AdmittedIff | atstest/EBPIngestThreadCommon.c:96-207 | a parsed section is added exactly when it has a time other than 0 for the stream, or is a time signal at 0 with an adjustment |
| SpliceDispatch.CancellationNotAdmitted | atstest/EBPIngestThreadCommon.c:122-187 | no parsed cancellation is added to any list |
| SpliceDispatch.CancellationIgnored | atstest/EBPIngestThreadCommon.c:96-189 | so its arrival changes no list |
| SpliceDispatch.AddedTimesEntries | atstest/EBPIngestThreadCommon.c:158-185 | an event named by several components still gets one entry, and only a cancellation could lose one |
| SpliceLifecycle.MatchesIff | atstest/EBPIngestThreadCommon.c:1452-1452 | the unsigned window comparison holds exactly when the times are within the tolerance and the section is not earlier than the tolerance |
| SpliceLifecycle.ExpiredIff | atstest/EBPIngestThreadCommon.c:1368-1368 | a section has expired exactly when the PTS is more than the tolerance after its time, and never when it matches |
| SpliceLifecycle.OneOfThree | atstest/EBPIngestThreadCommon.c:1368-1452 | a boundary is exactly one of too early, matching and too late for a section that is not earlier than the tolerance |
| SpliceLifecycle.EarlySectionMissed | atstest/EBPIngestThreadCommon.c:1452-1452 | an early section that a boundary at the same time does not match |
| SpliceLifecycle.UnexpiredAre | atstest/EBPIngestThreadCommon.c:1359-1431 | what stays are exactly the unexpired sections, and the list shrinks exactly when one had expired |
| SpliceLifecycle.ExpiredIsRetired | atstest/EBPIngestThreadCommon.c:1368-1416 | an event with fewer entries after the check than before is retired |
| SpliceLifecycle.MatchTakesFirst | atstest/EBPIngestThreadCommon.c:1446-1487 | a match takes the first section in the window from the list, and retires its event, unless it is retired already, with the time that belongs to it |
| SpliceLifecycle.MatchRetiresProgram | atstest/EBPIngestThreadCommon.c:1463-1479 | for a program splice that is its adjusted time |
| SpliceLifecycle.ExpireRetires | atstest/EBPIngestThreadCommon.c:1378-1401 | an event that expires is retired with the time of its first expired entry, and no other is |
| SpliceLifecycle.RunsKeepOnce | atstest/EBPIngestThreadCommon.c:1248-1573 | every run of arrivals, matches, expiries and prunes keeps at most one entry per event and list |
| SpliceLifecycle.RunsKeepNoneCancelled | atstest/EBPIngestThreadCommon.c:96-1573 | in no run does a list come to hold a cancellation |
| SpliceLifecycle.StepRemembersIff | atstest/EBPIngestThreadCommon.c:1549-1573 | a retired event is forgotten exactly by a prune beyond its time to live |
| SpliceLifecycle.RetiredUntilPruned | atstest/EBPIngestThreadCommon.c:1378-1573 | in every run a retired event keeps its time until such a prune |
| SpliceLifecycle.MatchedUntilPruned | atstest/EBPIngestThreadCommon.c:1434-1573 | an event that matched is remembered with the time that belongs to its splice until a prune later than its time to live after that |
| SpliceLifecycle.ExpiredUntilPruned | atstest/EBPIngestThreadCommon.c:1348-1573 | and so is one that expired |
| SpliceLifecycle.StepLeaves | atstest/EBPIngestThreadCommon.c:1287-1493 | an event leaves a list only into the retired table, whatever arrives |
| SpliceLifecycle.NoneDisappears | atstest/EBPIngestThreadCommon.c:96-1573 | in every run an event that is not forgotten by a late prune is still listed or retired, cancelled or not |
| SpliceLifecycle.CancelledIsWaitedFor | atstest/EBPIngestThreadCommon.c:96-189 | the arrival of a cancellation changes nothing |
| SpliceEvents.AddScte35Point | atstest/EBPIngestThreadCommon.c:1248-1346 | the edited array, which stores a copy of the section, is the list that the lemmas on additions speak of |
| SpliceEvents.AddArrived | atstest/EBPIngestThreadCommon.c:96-207 | a real list becomes what the dispatch lemmas say of an arrival, each admission with a copy of its own |
| SpliceEvents.WalkFilters | atstest/EBPIngestThreadCommon.c:1359-1427 | removing entries while walking, without moving on, is an order-preserving filter |
| SpliceEvents.CheckPtsAgainstScte35Points | atstest/EBPIngestThreadCommon.c:1348-1432 | the array keeps exactly the unexpired sections in order, the table gains the expired events, and -1 is returned exactly when a section was removed |
| SpliceEvents.CheckEbpAgainstScte35Points | atstest/EBPIngestThreadCommon.c:1434-1497 | only the first section in the window is removed and its event retired; 0 and no change when there is none |
| SpliceEvents.PruneOldScte35Map | atstest/EBPIngestThreadCommon.c:1549-1573 | the table is exactly filtered by age |

## Left out

- Sockets, files, console menu but for the effect of its clear command on the verdicts, logging, reports, configuration parsing and the fault-injection switches: input and output.
- The demuxer, PSI and PES code, and the SPS, PPS and slice syntax: field lists without a deep property.
- `bs_write_ue` and `bs_write_se` are stubs in the source; the encoder for the decoding lemmas is written from section 9.1 of ITU-T H.264.
- `libstructures/binheap.c`: its sift is that of the heapsort.
- Errors of the pthread calls and of memory allocation, and with them the second plan of `hashtable_expand`; frees are not modelled.
- Threads are modelled by locked sections (ring buffer) or by single steps under the mutex (queue); wait and signal are abstract, and nobody wakes without a signal.
- `cb_empty` takes no lock in the source and is not an event of the log or of the protocol.
- Floating point: the jitter comparison, the expected PTS and the fraction of an NTP time are arbitrary functions; the time to live and the load limit of a hash table are integers, and the sum of a PTS and the time to live is not rounded.
- Overflow of int counters and lengths, except for the traversal counters, whose wrapping is modelled.
- The segment analysis takes a queue for everything its producer will have pushed, which the queue protocol justifies for its one consumer; partition ids are not bounded by the size of `ebpBoundaryInfo`, and a time scale of 0, by which the source divides, is excluded.
- SegmentAnalysis.StreamInfo.FifoPop: works on the queue as a sequence, not on the class ThreadSafeFifo, because blocking is the protocol's matter.
- VArray.VArray.Set: does not say what the slots skipped by growing hold, because the source leaves them uninitialised although its comment says NULL; so too VArray.VArray.Insert beyond the end and both in VQArray.
- SegmentAnalysis.Analyse: lets other threads interfere between the segments of a stream, not in the middle of the checks of one, where the source has a data race; what they do to the verdict after the last segment is not part of it.
- HeapSort.Sort: asks for at least one element, because on an empty array the source reads and writes the slot before the first, which C does not define.
- VArray.VArray.Sort: asks for at least one element for the same reason.
- VQArray.VQArray.Sort: asks for at least one element for the same reason.
- HashTable.HashTable.Insert: is stated for an absent key; for a present one the source makes a second entry, and its documentation calls the value then returned undefined (libstructures/hashtable.h:127-131). Keys are compared by equality, and the mixing of the user's hash is part of the hash function.
- BitStream.BitStream.ReadUll: leaves out shifts by 64 or more, and WriteU those by 32 or more, which C does not define; shifts by 31 and 32 inside `bs_read_ue` are taken to wrap to 32 bits.
- Bits.ReadSeWrong: takes the `result + 1` of `bs_read_se` (h264bitstream/bs.h:251), which passes the range of int32_t at that codeNum, to wrap, where C does not define it.
- StreamBuffer.CircularBuffer.ReadOrPeek: leaves out negative sizes and a size of 0 for the ring, and `cb_init` is taken to start from a zeroed struct, since it does not set `disabled`.
- SpliceEvents.AddScte35Point: takes the copy it stores as given. The source makes the copy's components through a struct of another layout (atstest/scte35.c:951-966), which C does not define where a pointer is wider than 32 bits; the lemmas hold for every copy that keeps all but the component times.
- SpliceParser.ParseSpliceInsert: leaves out the fields that the lists do not use, and stops before those that follow the components.
- SpliceSyntax.ParsedBackIff: covers the fields that the lists use; the two other flags and the reserved bits are arbitrary.
- FifoProtocol.OneConsumer: says that a wake-up is still to come, not that a thread is scheduled in the end.
