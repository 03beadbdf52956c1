# motion-master: a verified model of the communication and capture core

A Dafny 4.11 model of the six parts of motion-master whose correctness rests on interleavings, on
state kept across calls, or on two pieces of code that must agree. `dafny verify dfyconfig.toml`
checks all of it.

| files | what they model |
|---|---|
| `ControlPlane`, `ControlPlaneProgress`, `Admission`, `WriterWait`, `BusLock` | the writer-preferring bus lock, the drive mutexes and the eight frame slots, as a step system over any number of threads in which every statement, sleep, notify and resume is a step of its own |
| `SpoeOutputSlot`, `SpoeInputQueue`, `SpoeQueueCalls`, `SpoeAssembler` | the lock-free process data of one SPoE drive: the three-buffer latest-wins slot and the single-producer single-consumer ring at the granularity of atomic operations and single copied bytes, and the assembler against a drive that buffers, hands out and flushes |
| `SpoeFrames`, `SpoeConnection`, `SpoeSession`, `SpoeReplies` | framing of a byte stream, one request, and whole sessions of requests with timeouts, late replies and reconnects |
| `EtherCatFrames`, `EtherCatLaws`, `CaptureMatcher`, `CaptureSummary`, `CaptureLaws`, `CaptureWire`, `CaptureFile` | the EtherCAT frame parser and the capture summary with its map of queues, against a matching defined without queues |
| `Crc8`, `Crc8Laws`, `Sii`, `SiiImage`, `SiiLaws`, `SiiRoundTrip`, `SiiRefusals`, `SiiElements` | the SII checksum, decoders, parser and validator |
| `Pcap`, `PcapLaws`, `PcapRefusals` | the pcap writer and reader |
| `Bytes`, `Sums`, `Remainders` | words of bytes, sums over threads, remainders |

Code that changes state is modelled in place: classes whose methods are proved against value-level
functions, and loops with invariants. The theorems are about those functions, or about every run of a
step system built from them. The main byte layouts, limits and codes
are stated literally, by theorems of their own. The bus lock's methods and its step system are tied by
`ControlPlane.LockIsSteps`, `UnlockIsSteps`, `LockSharedIsSteps` and `UnlockSharedIsSteps`: the steps of
one section under the mutex, run without a break, have the effect the method is proved against.

Sockets, disks, clocks and threads enter as parameters: a read is a chunk of bytes, a timeout or an
error; a write to disk takes some number of bytes; the scheduler picks any enabled step, and may wake
a sleeper for no reason.

## What the proofs found

- After the drive empties its buffer, the assembler's *full* replies can return frames that straddle
  the gap: the header file says stale bytes are dropped, but only a short reply drops them. In
  `StraddlingFrame` a returned frame is 200 bytes from before the flush and 100 from behind it. A full
  reply returns true frames if and only if no byte was carried over the flush, or the kept part and
  the reply are less than one frame and nothing is returned (`FullRepliesReturnTrueFramesExactly`).
  The first short reply is right again in any case (`Resynchronises`).
- A late reply is taken for the answer to a later request of its type exactly when the two are a
  multiple of 65536 requests apart (`ReturnsExactlyByNumber`, for whole sessions), so the promise that
  it never is holds up to that distance (`NoCrossTalk`) and no further: there are sessions of a connect
  and n unanswered requests in which the next one takes the reply to any earlier request m, and returns
  it exactly when n - m is such a multiple (`LateReplyIsReturnedExactlyAfterFullTurns`).
- The pcap writer stays open after a write the disk did not take whole, and apps/capture/main.cc:51-56
  goes on writing. The file right after the failure is fine (`ReadRightAfterFailedWrite`), but the
  reader finds the next record at its place if and only if the failed write took no byte
  (`NextWriteIsFoundExactly`). When it took a part of the header, the bytes written later complete the
  header (`TornHeaderIsCompleted`). When it took all of it, they complete the frame
  (`TornRecordSwallowsLaterBytes`), and a record that was accepted vanishes (`AcceptedRecordVanishes`).
- The pcap writer accepts every timestamp, but only those from 0 up to 2^32 seconds are read back
  (`RoundTrip` is an if-and-only-if; `NegativeTimeIsLost` is an instance).
- A byte that pads an odd number of FMMUs comes back as one more FMMU
  (`RoundTripIsExactForEvenFmmus`).
- The validator walks past a Nop category and the parser does not: an accepted image is decoded whole
  exactly when nothing stands behind a Nop (`ParserAgreesWithValidator`).

## Model

| member | source | states |
|---|---|---|
| ControlPlane.ReachableInv | libs/comm/control_plane_locks.cc:14-79 | in every reachable state of any number of threads the mutex, the lock's three fields, the drive mutexes and the slots agree with where every thread stands, and nobody is stranded |
| ControlPlane.StepKeeps | libs/comm/control_plane_locks.cc:14-79 | every statement, notify, wake-up and spurious wake-up keeps that invariant |
| ControlPlane.Exclusion | libs/comm/control_plane_locks.h:73-86 | at most one exclusive holder, beside it no shared holder, drive lock or frame slot; one holder per drive; free and held slots are eight |
| ControlPlane.NoLostWakeup | libs/comm/control_plane_locks.cc:14-48 | whenever a sleeping writer or reader could enter, some thread is still going to notify it or has been woken in its place |
| ControlPlaneProgress.DeadlockFree | libs/comm/control_plane_locks.cc:63-79 | every reachable state with an unfinished operation has a step other than a spurious wake-up |
| ControlPlaneProgress.RunsAreBounded | libs/comm/control_plane_locks.cc:14-79 | under any scheduler the length of a run is bounded by what is under way, the operations begun and the spurious wake-ups |
| ControlPlaneProgress.EveryOperationCompletes | libs/comm/control_plane_locks.cc:14-79 | a run without new operations has at most as many steps as the budget of its start and three for each spurious wake-up, and one that only a spurious wake-up could continue has finished every operation |
| Admission.SlotIsGivenExactly | libs/comm/control_plane_locks.cc:50 | a thread that wants a frame slot goes on exactly while fewer than eight threads hold one |
| Admission.DriveIsGivenExactly | libs/comm/control_plane_locks.cc:74-76 | one that wants a drive goes on exactly while no thread has that drive |
| Admission.MutexIsGivenExactly | libs/comm/control_plane_locks.cc:14-48 | one before the mutex goes on exactly while nobody is inside the critical section |
| Admission.OthersGoOn | libs/comm/control_plane_locks.cc:14-79 | nothing else but sleep holds a thread up |
| Admission.WriterEntersExactly | libs/comm/control_plane_locks.cc:17 | the wait of lock ends exactly when nobody holds the bus, and otherwise the writer sleeps |
| Admission.ReaderEntersExactly | libs/comm/control_plane_locks.cc:34 | the wait of lock_shared ends exactly when nobody holds the bus exclusive and no writer waits, however many readers there are |
| Admission.HoldsAreNested | libs/comm/control_plane_locks.h:60-86 | a slot is held only inside its drive and the bus, a drive only inside the bus, and a holder of a slot waits for nothing |
| Admission.EightDrivesWorkAtOnce | libs/comm/control_plane_locks.h:73-76 | with any number of drives, states in which up to eight of them work at the same time are reached |
| WriterWaits.WriterPreference | libs/comm/control_plane_locks.h:13-22 | from a writer's registration until it enters, the shared holders are among those of the start and the reader count only falls |
| WriterWaits.WriterWaitIsBounded | libs/comm/control_plane_locks.h:15-20 | however shared holds overlap and however many are begun, they keep a registered writer for a bounded number of steps: the budget of the start and one operation per thread, to which only further exclusive operations and spurious wake-ups add, each its grant; and there is always a step to take |
| WriterWaits.OrdinaryWaitIsBounded | libs/comm/control_plane_locks.h:15-20 | without those two the bound depends on nothing but the state the wait began in |
| BusLocks.FieldsAreConsistent | libs/comm/control_plane_locks.h:34-36 | in every reachable state the counts are not negative and a writer excludes readers, which is what the methods of `BusLock` keep |
| BusLocks.BusLock.constructor | libs/comm/control_plane_locks.h:34-36 | no reader, no waiting writer, no writer |
| BusLocks.BusLock.Register | libs/comm/control_plane_locks.cc:15-16 | one more waiting writer, and from then on no reader passes its predicate |
| BusLocks.BusLock.TryEnterExclusive | libs/comm/control_plane_locks.cc:17-20 | enters exactly when there is no writer and no reader, and then shuts both out; keeps the fields consistent |
| BusLocks.BusLock.LeaveExclusive | libs/comm/control_plane_locks.cc:22-30 | when the holder leaves, a writer can enter at once and a reader exactly when no writer waits |
| BusLocks.BusLock.TryEnterShared | libs/comm/control_plane_locks.cc:32-36 | enters exactly when no writer holds or waits, and then shuts writers out |
| BusLocks.BusLock.LeaveShared | libs/comm/control_plane_locks.cc:38-48 | a writer is notified exactly when leaving let a writer in, and no reader gains anything |
| BusLocks.SlotPool.TryAcquire | libs/comm/control_plane_locks.cc:50 | one slot goes from the free ones to a new holder, or nothing changes while all eight are held |
| BusLocks.FrameSlot.Move | libs/comm/control_plane_locks.cc:58 | the slot changes hands and the number of free ones does not |
| BusLocks.FrameSlot.Destroy | libs/comm/control_plane_locks.cc:52-56 | a held slot is given back once; a moved-from one gives nothing back |
| SpoeOutputSlots.ReachableInv | libs/comm/spoe_process_data.cc:8-31 | under every interleaving the writer's, the reader's and the middle index are a permutation of 0, 1, 2 and every buffer holds what its owner expects |
| SpoeOutputSlots.ReadsReturnNewestWholeFrame | libs/comm/spoe_process_data.h:23-35 | every read returns one whole published frame, at least as new as the newest when the read began, and never an older one than before |
| SpoeOutputSlots.HeldFrameIsNeverWritten | libs/comm/spoe_process_data.cc:17-31 | whatever the writer does, the frame the reader holds keeps its bytes |
| SpoeOutputSlots.SpoeOutputSlot.constructor | libs/comm/spoe_process_data.cc:8-15 | three cleared buffers of one size, and the next read returns zeros |
| SpoeOutputSlots.SpoeOutputSlot.Write | libs/comm/spoe_process_data.cc:17-23 | a full-size frame is what the next read returns; the reader's buffer is untouched; a shorter frame is completed by older bytes |
| SpoeOutputSlots.SpoeOutputSlot.Read | libs/comm/spoe_process_data.cc:25-31 | returns the newest frame, and the same one again until there is a newer |
| SpoeInputQueues.ReachableInv | libs/comm/spoe_process_data.cc:33-77 | under every interleaving the counters stay within the capacity and every live slot holds its accepted frame, also while another is half written or half read |
| SpoeInputQueues.RefinesFifo | libs/comm/spoe_process_data.cc:41-77 | every step does to the queue what a FIFO does: a publishing push appends its frame, a returning pop removes the oldest, `dropOldest` removes as many as it returns, and all other steps change nothing |
| SpoeInputQueues.CallsDecideByTheQueue | libs/comm/spoe_process_data.cc:41-77 | full, empty and the number queued are decided by the queue as it is at the call's second load |
| SpoeQueueCalls.PushIsDecidedAtItsLoad | libs/comm/spoe_process_data.cc:41-52 | push refuses exactly when the queue is full as it loads the tail, whatever the consumer does before it acts on that |
| SpoeQueueCalls.PopIsDecidedAtItsLoad | libs/comm/spoe_process_data.cc:54-65 | pop finds nothing exactly when the queue is empty as it loads the head |
| SpoeQueueCalls.DropIsDecidedAtItsLoad | libs/comm/spoe_process_data.cc:67-77 | dropOldest removes and returns exactly the excess over keep as it loads the head, and frames pushed after that stay |
| SpoeInputQueues.PopsFollowPushes | libs/comm/spoe_process_data.h:47-63 | the popped frames are the accepted ones in order, each cut to its caller's buffer, with gaps of exactly the numbers dropped; every accepted frame is popped, dropped or still queued |
| SpoeInputQueues.CopyOut | libs/comm/spoe_process_data.cc:61-62 | copies as many bytes as fit and leaves the rest of the caller's buffer |
| SpoeInputQueues.SpoeInputQueue.constructor | libs/comm/spoe_process_data.cc:33-39 | an empty queue of that size |
| SpoeInputQueues.SpoeInputQueue.Push | libs/comm/spoe_process_data.cc:41-52 | refused exactly when full, else appended; a longer frame is cut and a shorter one completed by what its slot held |
| SpoeInputQueues.SpoeInputQueue.Pop | libs/comm/spoe_process_data.cc:54-65 | refused exactly when empty, the buffer then untouched; else the oldest frame, removed, and no division by a capacity of 0 |
| SpoeInputQueues.SpoeInputQueue.DropOldest | libs/comm/spoe_process_data.cc:67-77 | removes exactly the excess over `keep`, oldest first |
| SpoeAssemblers.SpoeFrameAssembler.constructor | libs/comm/spoe_process_data.cc:83-87 | nothing kept, no loss counted |
| SpoeAssemblers.SpoeFrameAssembler.AddReply | libs/comm/spoe_process_data.cc:89-105 | the in-place call is the function the laws below are about |
| SpoeAssemblers.ShortReply | libs/comm/spoe_process_data.h:81-84 | a short reply keeps nothing, returns frames that begin and end on the stream's boundaries, counts a loss exactly when bytes were carried, and keeps the invariant |
| SpoeAssemblers.FullReply | libs/comm/spoe_process_data.cc:89-105 | a full reply returns and keeps the end of the stream, cut from the carried bytes on, and counts nothing |
| SpoeAssemblers.Resynchronises | libs/comm/spoe_process_data.h:75-84 | from any kept part and after any run, the first short reply leaves nothing kept and returns only true, aligned frames; a loss is counted exactly when bytes were carried |
| SpoeAssemblers.FullRepliesReturnTrueFramesExactly | libs/comm/spoe_process_data.h:81-84 | after any run, what a full reply returns starts on a boundary of the true frames, or is empty, if and only if nothing was carried over the flush or kept part and reply are less than a frame |
| SpoeAssemblers.StraddlingFrame | libs/comm/spoe_process_data.cc:89-105 | a run in which a full reply returns 200 bytes from before the flush and 100 from behind it as one frame |
| SpoeAssemblers.Lossless | libs/comm/spoe_process_data.cc:83-105 | without a flush, results plus kept part are the bytes received, the kept part is shorter than a frame, and no loss is counted |
| SpoeFrames.TakeEncoded | libs/comm/spoe_connection.cc:86-106 | an encoded frame is taken back, whatever follows it |
| SpoeFrames.TakenWasEncoded | libs/comm/spoe_frame.cc:18-44 | what is taken, encoded again, is what stood at the front |
| SpoeFrames.TakeMonotone | libs/comm/spoe_connection.cc:86-106 | later bytes never change a decision |
| SpoeFrames.PartIsIncomplete | libs/comm/spoe_connection.cc:86-98 | no proper part of a frame is taken or refused |
| SpoeFrames.FeedIsDrain | libs/comm/spoe_connection.cc:190-226 | for any bytes, taking after each read is taking from all of them at once |
| SpoeFrames.ChunkingIndependence | libs/comm/spoe_connection.cc:86-106 | any frames, cut into reads in any way, come out exactly and in order, and exactly the unfinished part is kept |
| SpoeFrames.OversizeIsRefused | libs/comm/spoe_connection.cc:91-94 | a header claiming more than 512 bytes is refused behind any frames, however it arrives |
| SpoeFrames.FrameOnTheWire | libs/comm/spoe_frame.cc:18-34 | the bytes of an encoded frame one by one, and that it is refused exactly above 512 bytes of data |
| SpoeFrames.TakesExactly | libs/comm/spoe_connection.cc:86-106 | takeFrame by the bytes: when it waits, when it refuses, and which frame it takes |
| SpoeConnections.LoopReturnsTheMatch | libs/comm/spoe_connection.cc:190-226 | only the last frame taken can match and be returned; the connection is closed exactly on the errors that close it, and then nothing is kept |
| SpoeConnections.RequestCounts | libs/comm/spoe_connection.cc:155-227 | a request uses one id and counts every frame it takes and does not return |
| SpoeConnections.RequestReturnsTheMatch | libs/comm/spoe_connection.cc:155-227 | of the frames it takes exactly the returned one matches |
| SpoeConnections.SpoeConnection.Close | libs/comm/spoe_connection.cc:69-75 | closed, and no byte kept |
| SpoeConnections.SpoeConnection.Connect | libs/comm/spoe_connection.cc:113-144 | the old connection's bytes are gone; open exactly on success; the sequence counter goes on |
| SpoeConnections.SpoeConnection.Take | libs/comm/spoe_connection.cc:86-106 | the first whole frame leaves the buffer, and nothing else changes |
| SpoeConnections.SpoeConnection.AwaitReply | libs/comm/spoe_connection.cc:190-226 | the in-place loop is the function the laws are about |
| SpoeConnections.SpoeConnection.SendRequest | libs/comm/spoe_connection.cc:155-227 | the in-place request is the function the laws are about |
| SpoeReplies.LoopReturnsWhatArrives | libs/comm/spoe_connection.cc:190-226 | however the bytes are cut into reads, the loop returns the first frame with the id and type among everything delivered; without one it closes exactly on an oversize header or a failed read, and times out otherwise |
| SpoeReplies.RequestReturnsWhatArrives | libs/comm/spoe_connection.cc:155-227 | the outcome of request in every case: closed connection, too much data, failed write, and what arrives |
| SpoeReplies.OwnReplyIsReturnedExactly | libs/comm/spoe_connection.cc:155-227 | in every session with no outstanding reply 65536 or more requests late, a request returns its own reply when that has arrived whole, behind any late ones, and otherwise none: closed after a failed read, else a timeout |
| SpoeSessions.LoopFollowsStream | libs/comm/spoe_connection.cc:190-226 | along a stream of replies a request takes the first ones and leaves exactly the others, split anywhere between buffer and wire |
| SpoeSessions.ReachableInv | libs/comm/spoe_connection.cc:155-227 | in every session the buffer and the wire together are the unread replies, in order |
| SpoeSessions.ReturnsExactlyByNumber | libs/comm/spoe_connection.cc:166-206 | in every session, however late the replies, a frame taken is the one returned exactly when it has the request's type and its own request is a multiple of 65536 back |
| SpoeSessions.NoCrossTalk | libs/comm/spoe_connection.h:8-11 | with no outstanding reply 65536 or more requests late, a request returns only its own reply, never discards it, and never sees one from before a reconnect |
| SpoeSessions.TakenIsReturnedOrDiscarded | libs/comm/spoe_connection.cc:195-206 | over a whole session every frame taken was returned or counted |
| SpoeSessions.LateReplyIsReturnedExactlyAfterFullTurns | libs/comm/spoe_connection.cc:166-206 | for every m and n there is a reachable session in which request n takes the reply to request m, and it returns it exactly when n - m is a multiple of 65536 |
| SpoeSessions.LeftoverIsMistakenExactlyAfterFullTurns | libs/comm/spoe_connection.cc:166-197 | a leftover reply is taken for the answer exactly after a multiple of 65536 requests |
| EtherCatFrames.ReadDatagrams | libs/capture/ethercat_frame.cc:66-92 | the datagram loop computes the recursive definition and ends on every input |
| EtherCatFrames.ParseEtherCatFrame | libs/capture/ethercat_frame.cc:43-93 | the parser computes the definition the laws are about, on every input |
| EtherCatFrames.DatagramsFit | libs/capture/ethercat_frame.cc:60-91 | the datagrams lie one behind the other within the frame's length, and each but the last announces the next |
| EtherCatLaws.FrameRoundTrip | libs/capture/ethercat_frame.cc:43-93 | any datagrams composed into a frame, with any addresses, spare bits, slack and padding, are parsed back |
| EtherCatLaws.HeaderIsRefusedExactly | libs/capture/ethercat_frame.cc:43-64 | which Ethernet and EtherCAT headers are refused, by the bytes |
| EtherCatLaws.AcceptsExactlyCompositions | libs/capture/ethercat_frame.cc:43-93 | a frame is accepted if and only if it is such a composition |
| CaptureMatcher.RightIsUnique | libs/capture/summary.cc:64-79 | the rule of earliest unanswered send and resend window leaves one verdict per record |
| CaptureMatcher.VerdictsAreTheMatching | libs/capture/summary.h:31-34 | the queues compute the one matching that satisfies the rule, and only that one satisfies it |
| CaptureMatcher.TrackIsGood | libs/capture/summary.cc:49-80 | each queue holds exactly the unanswered sends of its key, oldest first |
| CaptureSummaries.CountLost | libs/capture/summary.cc:81-84 | the sends left in the queues of each kind |
| CaptureSummaries.Classify | libs/capture/summary.cc:56-63 | what a record is, decided by its first datagram |
| CaptureSummaries.NoteItem | libs/capture/summary.cc:64-79 | one turn of the loop, on counters and queues |
| CaptureSummaries.NoteRecord | libs/capture/summary.cc:50-80 | one turn keeps counters and queues in step with the matching |
| CaptureSummaries.AddLost | libs/capture/summary.cc:81-85 | the running counters with the queues' rest are the reference summary |
| CaptureSummaries.Summarise | libs/capture/summary.cc:46-86 | for every record list the result is the summary counted from the matching, set by set |
| CaptureWire.KeysAgreeExactly | libs/capture/summary.cc:16-21 | two frames have one key exactly when index, command, offset and length agree and also the position, unless the command is 1, 2, 3, 7, 8, 9 or 13; sent exactly with the bit clear, cyclic exactly for commands 10 to 12 |
| CaptureWire.ForeignExactly | libs/capture/summary.cc:56-60 | a record is not EtherCAT exactly when its bytes are no composition |
| CaptureWire.SendAndReturn | libs/capture/summary.cc:27-86 | the whole summary of a frame and its return: sent, returned, none lost, the bands and the latency to the nanosecond |
| CaptureWire.SendAndStranger | libs/capture/summary.cc:75-84 | with the return of another frame: one lost and one unmatched return |
| CaptureWire.SendAndResend | libs/capture/summary.cc:23-25 | a frame sent twice is a resend exactly within half a second |
| CaptureLaws.Conservation | libs/capture/summary.cc:46-86 | sent is returned plus lost for each kind; every record is counted in exactly one place; the bands are cumulative |
| CaptureLaws.SentIsReturnedOrLost | libs/capture/summary.h:17-22 | each counted send is answered once or lost |
| CaptureLaws.EveryRecordIsCountedOnce | libs/capture/summary.cc:50-80 | the counters partition the records |
| CaptureLaws.BandsAreCumulative | libs/capture/summary.cc:27-42 | a later band is contained in an earlier one |
| CaptureLaws.AnswersKeepTheOrder | libs/capture/summary.cc:74-79 | returns of one key answer its sends in order, each at most once |
| CaptureLaws.OpenSendsAreSpaced | libs/capture/summary.cc:23-25 | two unanswered sends of one key are at least 500 ms apart, in any capture |
| CaptureLaws.OpenSendsAreFew | libs/capture/summary.cc:23-25 | a capture of duration D holds at most 1 + D / 500 ms unanswered sends of one key |
| CaptureLaws.LatestIsLargest | libs/capture/summary.cc:27-32 | `latestUs` is the largest latency, reached by some return, or 0 |
| CaptureFiles.SummariseFile | apps/capture/main.cc:28-36 | the summary of what a file reads as, or the reader's error |
| CaptureLaws.LatenciesAreNonNegative | libs/capture/summary.h:48-49 | in time order no return precedes its send |
| Crc8.Checksum | libs/comm/sii.cc:322-329 | the byte loop computes the register function the laws are about |
| Crc8.ShiftByte | libs/comm/sii.cc:326-328 | the bit loop does eight shifts |
| Crc8.ChecksumIsDivision | libs/comm/sii.cc:322-330 | a checksum matches exactly when the bits, the first eight inverted, and the checksum behind them have no remainder in long division by x^8 + x^2 + x + 1 |
| Crc8.RunIsRemainder | libs/comm/sii.cc:322-329 | a shift register holds the remainder of long division |
| Crc8.OctetOfIsInjective | libs/comm/sii.cc:330 | comparing bits is comparing bytes |
| Crc8.OctetOfIsBinary | libs/comm/sii.cc:323-329 | the bits of a byte are its binary digits |
| Crc8Laws.RunXor | libs/comm/sii.cc:322-329 | remainders are linear |
| Crc8Laws.DetectsOddChanges | libs/comm/sii.cc:322-334 | two blocks of any length that differ in an odd number of bits do not both pass |
| Crc8Laws.DetectsBursts | libs/comm/sii.cc:322-334 | nor do two that differ only within eight consecutive bits |
| Crc8Laws.DetectsThreeChanges | libs/comm/sii.cc:322-334 | nor two of at most fifteen bytes that differ in one, two or three bits |
| Crc8Laws.PassesTooExactly | libs/comm/sii.cc:322-334 | beside a passing block another one passes exactly when their difference is a multiple of the polynomial |
| Crc8Laws.SixteenBytesAreTooMany | libs/comm/sii.cc:322-334 | the bound is exact: in a block of sixteen bytes two changed bits 127 places apart always go unnoticed |
| Crc8Laws.Order | libs/comm/sii.cc:322-329 | the order of x is 127, which is what makes two changed bits visible up to that distance |
| Sii.ParseStrings | libs/comm/sii.cc:67-84 | the loop computes the string table, cut short where the payload is |
| Sii.ParseFmmu | libs/comm/sii.cc:116-127 | one FMMU per byte |
| Sii.ParseSyncManagers | libs/comm/sii.cc:129-142 | as many eight-byte elements as are whole |
| Sii.ParseEntries | libs/comm/sii.cc:158-171 | as many of the declared entries as are whole, and where they end |
| Sii.ParsePdo | libs/comm/sii.cc:144-175 | each PDO with its entries, and the next behind them |
| Sii.ParseDc | libs/comm/sii.cc:177-192 | as many 24-byte elements as are whole |
| SiiElements.FieldsExactly | libs/comm/sii.cc:14-37 | a field is the number in its bytes, and zero when one of them is missing |
| SiiElements.SyncManagersExactly | libs/comm/sii.cc:129-142 | one sync manager from each whole group of eight bytes of any payload |
| SiiElements.ClocksExactly | libs/comm/sii.cc:177-192 | one clock from each whole group of 24 bytes |
| SiiElements.CutPdoList | libs/comm/sii.cc:144-175 | a list that ends inside a PDO: the ones before it whole, and it with the number it declares and the entries that are whole |
| SiiElements.CutStringTable | libs/comm/sii.cc:67-84 | a table that ends inside a string: the ones before it whole, and the bytes there are of it |
| SiiImages.ResolveInvertsCode | libs/comm/sii.cc:196-247 | every type is what its own code resolves to, and a type that is a single value is no other value's |
| SiiElements.ResolvesExactly | libs/comm/sii.cc:196-247 | which type each of the 65536 values stands for, and which are unknown |
| SiiImages.Decode | libs/comm/sii.cc:275-291 | the dispatch decodes into the field of the type |
| SiiImages.CutCategory | libs/comm/sii.cc:265-273 | the payload is clamped to the bytes there are, the next offset is not |
| SiiImages.ParseCategories | libs/comm/sii.cc:258-297 | the loop ends on every image and decodes the walk's categories in order |
| SiiImages.ParseSii | libs/comm/sii.cc:249-300 | refused exactly below 128 bytes, else header and categories |
| SiiRefusals.ParserReadsBrokenChain | libs/comm/sii.cc:256-297 | of a chain that breaks off the parser reads every whole category before that and the last one with the bytes there are |
| SiiImages.WalkChain | libs/comm/sii.cc:336-365 | the word walk ends on every image and stays inside it, with the error of the word it fails at |
| SiiImages.ValidateSiiImage | libs/comm/sii.cc:302-366 | the first failing check with the numbers its message gives, or none |
| SiiRefusals.RefusedExactlyFor | libs/comm/sii.cc:302-366 | which refusal an image gets: odd length, fewer than 65 words, a checksum that does not divide, and then the first place at which the chain breaks off, with its words |
| SiiRefusals.BlankHeaderIsRefused | libs/comm/sii.cc:322-334 | an image whose first fifteen bytes are zero is refused for its checksum |
| SiiRefusals.BreaksOffExactly | libs/comm/sii.cc:336-365 | the walk fails for a reason exactly when whole categories lead to a place where the bytes give that reason |
| SiiLaws.ChainIsItsBytes | libs/comm/sii.cc:336-365 | the validator finds a chain exactly when the section begins with that chain's written form and an end marker |
| SiiLaws.AcceptsExactlyWellFormed | libs/comm/sii.h:192-213 | an image is accepted exactly when it has whole words, a header divisible with its checksum, and a closed chain of whole categories |
| SiiLaws.ParserAgreesWithValidator | libs/comm/sii.cc:249-366 | on an accepted image the parser succeeds, clamps nothing and walks the validator's chain up to its first Nop; the whole chain exactly when nothing stands behind a Nop |
| SiiLaws.OnlyItsField | libs/comm/sii.cc:275-291 | a category changes the field of its type and no other |
| SiiLaws.LastCountsAndPdosAccumulate | libs/comm/sii.h:180-186 | for every type the last category counts, except that PDOs accumulate in chain order |
| SiiLaws.DamagedHeaderIsRefused | libs/comm/sii.h:206-207 | an accepted image with one, two, three or any odd number of bits changed in its first fifteen bytes is refused for its checksum |
| SiiLaws.DamageInABurstIsRefused | libs/comm/sii.h:206-207 | so is one changed only within eight consecutive bits there |
| SiiRoundTrip.HeaderRoundTrip | libs/comm/sii.cc:39-65 | every header is read back field by field |
| SiiRoundTrip.StringsRoundTrip | libs/comm/sii.cc:67-84 | every string table is read back, padded or not |
| SiiRoundTrip.GeneralRoundTrip | libs/comm/sii.cc:86-114 | every general category is read back, the signed current included |
| SiiRoundTrip.SyncManagersRoundTrip | libs/comm/sii.cc:129-142 | every list of sync managers is read back |
| SiiRoundTrip.PdosRoundTrip | libs/comm/sii.cc:144-175 | every list of PDOs with complete entries is read back |
| SiiRoundTrip.ClocksRoundTrip | libs/comm/sii.cc:177-192 | every list of clock settings is read back |
| SiiRoundTrip.ChainRoundTrip | libs/comm/sii.cc:249-300 | any chain written behind any header parses to that header and to what its categories up to the first Nop say |
| SiiRoundTrip.WrittenImageIsAccepted | libs/comm/sii.cc:302-366 | a written image is accepted exactly when its header carries the right checksum |
| SiiRoundTrip.PartsAreJoined | libs/comm/sii.cc:283-288 | a PDO list written in parts over several categories comes back joined in chain order |
| SiiRoundTrip.ImageRoundTrip | libs/comm/sii.cc:249-300 | a section written into any chain with nothing behind a Nop, PDO lists in any parts and any other categories in between, parses to itself, but for the FMMU padding |
| SiiRoundTrip.SevenCategoriesCarry | libs/comm/sii.cc:249-300 | one category of each type is such a chain |
| SiiRoundTrip.RoundTripIsExactForEvenFmmus | libs/comm/sii.cc:116-127 | and exactly to itself if and only if the number of FMMUs is even |
| Pcap.PutU32 | libs/capture/pcap.cc:21-26 | the four bytes, low byte first |
| Pcap.GetU32 | libs/capture/pcap.cc:33-41 | masks and shifts give the word in the file's byte order |
| Pcap.PcapWriter.constructor | libs/capture/pcap.h:27-30 | nothing is open |
| Pcap.PcapWriter.Open | libs/capture/pcap.cc:47-66 | open exactly when the file can be created and takes the header, and then it holds exactly the header |
| Pcap.PcapWriter.Write | libs/capture/pcap.cc:68-83 | a whole write appends its record to whatever the file holds, and makes a good file that of one more record; a part-way one appends exactly the bytes taken; a closed writer changes nothing |
| Pcap.PcapWriter.Close | libs/capture/pcap.cc:85-90 | closed, the file as it is |
| Pcap.WordRoundTrip | libs/capture/pcap.cc:21-41 | a word is read back in either byte order |
| Pcap.ParseRecord | libs/capture/pcap.cc:115-128 | one turn: the record, unless it is cut short |
| Pcap.ParseRecords | libs/capture/pcap.cc:112-130 | the loop ends on every file and returns its whole records |
| Pcap.ParsePcap | libs/capture/pcap.cc:92-131 | the parser computes the definition the laws are about, the three errors included |
| PcapRefusals.RefusedExactlyFor | libs/capture/pcap.cc:92-111 | too short, not pcap or not Ethernet exactly by the bytes of the file header, and otherwise read in the byte order and unit they name |
| PcapRefusals.HeaderOnDisk | libs/capture/pcap.cc:53-60 | the 24 bytes of the file header |
| PcapRefusals.RecordOnDisk | libs/capture/pcap.cc:73-77 | the words of a record on disk and the frame behind them |
| PcapLaws.RereadExactly | libs/capture/pcap.cc:74-75 | which timestamps survive division, casts and reading back: exactly those the format can hold |
| PcapLaws.RoundTrip | libs/capture/pcap.cc:47-131 | in both byte orders and both units a file reads back as written if and only if every timestamp and every length is one the format can hold |
| PcapLaws.NegativeTimeIsLost | libs/capture/pcap.cc:74-75 | a time before 1970 is not read back |
| PcapLaws.ByteOrderIsInvisible | libs/capture/pcap.cc:96-108 | byte-swapped files read the same |
| PcapLaws.ReadRightAfterFailedWrite | libs/capture/pcap.cc:78-81 | the file as a failed write leaves it reads as every record before it |
| PcapLaws.NextWriteIsFoundExactly | libs/capture/pcap.cc:68-83 | whatever is written next, the reader comes to start a record there if and only if the failed write took no byte |
| PcapLaws.WritesAfterEmptyFailureAreRead | libs/capture/pcap.cc:68-83 | after a failed write that took no byte every later one is read back |
| PcapLaws.TornHeaderIsCompleted | libs/capture/pcap.cc:114-129 | after a failed write that took n bytes of the header, the first bytes written later complete it, and its time and length, made of both, are what is read on by; too few of them and nothing more is read |
| PcapLaws.TornRecordSwallowsLaterBytes | libs/capture/pcap.cc:114-129 | after one that took the header, the bytes written later complete the torn frame, and reading goes on behind it |
| PcapLaws.AcceptedRecordVanishes | libs/capture/pcap.cc:78-81 | two writes, the first torn, that read as one frame nobody captured |
| PcapLaws.ReadsOnFrom | libs/capture/pcap.cc:114-129 | where the reader starts a record it reads on as if the file began there |
| PcapLaws.Truncation | libs/capture/pcap.cc:114-121 | cutting any readable file behind its header keeps exactly the records that end before the cut, and is never an error |
| PcapLaws.CopyIsExact | libs/capture/pcap.cc:68-131 | what was read from any file and written again is read back exactly when no time lies beyond the last second |

## Left out

- SpoeOutputSlots.ReadsReturnNewestWholeFrame: the step system publishes frames of the configured size only, as the header demands; `SpoeOutputSlot.Write` also covers other sizes.
- SpoeInputQueues.RefinesFifo: pushes frames of the configured size, as the header describes the queue, and counts them without bound, so it speaks of fewer than 2^64; `SpoeInputQueue.Push` covers other sizes.
- CaptureSummaries.Summarise: counts without bound, so it speaks of captures whose 32-bit counters do not overflow.
- PcapLaws.ByteOrderIsInvisible: asks for frames shorter than 2^32 bytes; behind a longer one the reader goes astray in each byte order in its own way.
- PcapLaws.NextWriteIsFoundExactly: says where the reader starts records, not which values it reads there; bytes that repeat themselves can read as the right values from the wrong place.
- WriterWaits.WriterWaitIsBounded: its bound grows with every further exclusive operation begun, since the lock orders writers before readers but not among themselves, and another writer may be served first any number of times.
- ControlPlaneProgress.DeadlockFree: threads take one control-plane lock at a time and release it, as the header's lock order demands; a thread that nests them is not modelled.
- BusLocks.SlotPool.TryAcquire: is one try; the wait between tries is a step of `ControlPlane`.
- Memory orders weaker than sequential consistency, and `SpoeInputQueue::size` read from a third thread, whose two loads are no snapshot.
- Sockets, deadlines and cancellation inside `SpoeConnection`; a read is any chunk, timeout or error, and a write succeeds or fails.
- Error texts; errors are values with the numbers the texts contain.
- Reading a pcap file from disk in chunks, and time stamps outside 64 bits.
- JSON serialisers, the fieldbus drivers, SOEM calls, the HTTP and WebSocket servers, the router, configuration, logging and the auto-tuning client: I/O, libraries, or facts of one branch.
- `CycleRateWatch`, register encodings of FMMUs and sync managers, MAC and percent decoding: easy beside the rest.
