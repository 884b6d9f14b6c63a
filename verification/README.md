# Lu: verified models of the platform library's logic

Lu is an event-driven platform library in C++. Most of it is shells around epoll, pipes, sockets and
timers; this project models the logic inside those shells and proves what it promises.

| Dafny files | what they model |
|---|---|
| `Counting`, `Words`, `Bits`, `Bytes` | counting over threads and slots, 32-bit words, exclusive or, byte orders, block copies |
| `AtomicQueue`, `AtomicQueueProofs`, `AtomicQueueTheorems`, `AtomicQueueClaims`, `AtomicQueueWrap`, `NilQueue`, `NilClaims`, `SpscQueue`, `SinglePair`, `Common` | the bounded lock-free queues, one atomic operation a transition, any number of threads; the slot shuffle |
| `Framing`, `Socket`, `StringV`, `DataSocketV`, `CompactingBuffer`, `DataSocket`, `EventChannel`, `SocketAgreement` | stream reassembly in a double and in a compacting buffer |
| `DataWrap`, `FrameSpec`, `Frame`, `FramePresentation`, `FrameWriter`, `FrameSender`, `FrameWire` | the WebSocket frame reader, header printer and fragmenting sender (sections 5.2 to 5.5 of RFC 6455) |
| `Varint`, `Archive`, `ArchiveRoundTrip`, `ArchiveWire`, `MemoryImage`, `Growing`, `Requests`, `OutArchive`, `InArchive` | the binary archive: what it writes and reads, its block copies, and how its buffer grows |
| `TicketLock` | the ticket spin lock |
| `Scheduling`, `SchedulingClaims`, `SchedulingTheorems`, `SchedulingOrder`, `SchedulingProgress`, `JobManager`, `JobQueue` | the job scheduler and its client-side queue |

Code that changes fields and buffers in place is a class whose methods are proved against a
specification function; the theorems are about that function, and some of them (`FrameWire`,
`ArchiveWire`, `SchedulingClaims`, `AtomicQueueClaims`, `NilClaims`) say byte by byte or item by item
what it computes. Protocols between threads are state machines, and the theorems hold in every state of
every run.

Conventions. Atomic operations are sequentially consistent. Hosts are little-endian. Counters, lengths
and masks that the code keeps in 32 or 64 bits wrap here as they do there. An OR of disjoint bit ranges
is a sum, a mask is a remainder, a shift is a multiplication or a quotient; exclusive or is computed bit
by bit. Reads from a socket or pipe deliver any bytes in any pieces (`Socket.ByteSource`); random
masking keys and the scheduler's answers to a job queue are parameters.

## What the code does not do

Each of these is a theorem below, with its exact condition or a concrete state.

* A queue whose size does not divide 2^32 (possible with `MINIMIZE_CONTENTION = false`) sends two
  outstanding tickets to one slot when the counters wrap (`WrapSafeIffSizeDivides`), and then a push
  waits for ever in a queue that is not full, unless somebody pops (`WrapStrands`, `NeverStuckIff`).
* The frame reader refuses 64-bit payload lengths that have bit 15 set (`Frame.cpp:193`), although the
  header printer writes them (`RoundTripIff`); a message is readable exactly when its frame sizes avoid
  this (`SenderMeetsReader`).
* A length-prefixed protocol item whose size is a varint of a `w`-byte type works only below 128^w bytes
  (`VarintSizeLimit`), and in a byte-swapped archive a fixed-width size is patched in host order and read
  swapped (`SwappedSizeMisread`, `RoundTripIff` of the archive).
* An enlarger with multiplier below divisor shrinks the buffer it should grow (`RoomIff`). A request is
  added to the size of the buffer, not to the bytes written, so a growing archive may refuse a second
  block although room for both, and any constant more, would be granted at once (`NoConstantWillDo`);
  `ReachSufficesForAll` says what does suffice.
* On one or two processors `getMaxWorkers` wraps: normal jobs never run, low ones run ahead of them
  and beyond their share; on three, pausable jobs never run (`StarvedIff`). Above 10000 processors the
  dedicated priority has fewer workers than the high one, so high jobs run ahead of waiting dedicated
  ones and beyond the dedicated share. Shares and precedence hold exactly with 3 to 10000 processors
  (`SharesAreKeptIff`, `TakesHighestIff`).
* `unPauseJobs` wakes nobody, and a restart before the last worker has gone loses the next job
  (`StepAttendedIff`, `UnpauseWakesNobody`, `EarlyRestartLosesJob`).
* Cancelling a running job while others wait leaves its job-queue slot idle; nothing else does
  (`StepBusyIff`, `NoSlotIdlesIff`).

## Model

| member | source | states |
|---|---|---|
| AtomicQueueTheorems.WrapSafeIffSizeDivides | include/queue/Queue.h:365-376 | wrapping tickets give every window of `size` tickets distinct slots if and only if the size divides 2^32 |
| AtomicQueueWrap.WrapStrands | include/queue/Queue.h:187-242 | for every other size a run of one thread: 2^32 - p elements go through, p more stay, and the next push, ticket 2^32, waits on the oldest one's slot, the queue not being full |
| AtomicQueueWrap.NeverStuckIff | include/queue/Queue.h:111-242 | in every interleaving some call that holds a ticket can move on while one is unfinished, if and only if the size divides 2^32 |
| AtomicQueueTheorems.FullTestExactIff | include/queue/Queue.h:204-207 | the signed 32-bit full test agrees with the unbounded counters exactly when the loaded head is not stale enough for the difference to wrap |
| AtomicQueueProofs.StepKeepsInv | include/queue/Queue.h:111-242 | every atomic operation of any thread keeps the ticket window, the books of every slot, what each thread's position promises, and conservation |
| AtomicQueueTheorems.TicketWindow | include/queue/Queue.h:187-242 | in every interleaving 0 <= head - tail <= size, despite loads that are stale when the CAS claims |
| AtomicQueueTheorems.RefusalsAreExact | include/queue/Queue.h:200-240 | in every run, whatever point a try_push without a ticket has reached, it comes back only with the window full at that moment, and a try_pop only with it empty |
| AtomicQueueTheorems.TicketlessStep | include/queue/Queue.h:187-242 | each operation of a call without a ticket, in full: the load, the exact test, and a CAS that claims the loaded ticket when the counter still has it and else goes back to the test with the counter's present value |
| AtomicQueueClaims.LostPushClaim | include/queue/Queue.h:200-209 | in every run a push whose CAS fails keeps its element and tests again with the present head, and between its last load and now another thread has claimed a push ticket |
| AtomicQueueClaims.LostPopClaim | include/queue/Queue.h:229-240 | the same for a pop and the tail |
| AtomicQueueTheorems.NoElementRace | include/queue/Queue.h:130-183 | at most one thread is between taking and releasing a slot, so the plain element is never touched by two threads |
| AtomicQueueTheorems.Conservation | include/queue/Queue.h:109-242 | accepted elements equal returned ones plus those carried by threads plus those in STORED slots, with multiplicities |
| AtomicQueueTheorems.NotStuckAt | include/queue/Queue.h:128-183 | for every unfinished ticket some unfinished ticket of the same slot has a step that is not a spin |
| AtomicQueueTheorems.NoReachableStateIsStuck | include/queue/Queue.h:111-242 | no reachable state with an unfinished ticket is stuck |
| AtomicQueueTheorems.HoldersFinish | include/queue/Queue.h:128-183 | each such step uses up one unit of a finite amount of work and leaves the counters alone |
| AtomicQueueTheorems.CanDrain | include/queue/Queue.h:111-242 | from every state all calls under way can finish without another claim |
| AtomicQueueTheorems.QuietQueueHoldsTheRest | include/queue/Queue.h:109-183 | with no call under way exactly head - tail slots are STORED, the others EMPTY, and they hold what was accepted and not returned |
| NilQueue.StepSimulated | include/queue/Queue.h:40-107 | an operation on a slot of the queue with NIL slots is three operations of the same thread on the queue with slot states, any other one is one, and a failed one none |
| NilQueue.WindowAndConservation | include/queue/Queue.h:303-347 | ticket window and conservation for the NIL queue in every interleaving |
| NilQueue.NeverStuck | include/queue/Queue.h:60-106 | in the NIL queue some claimed ticket of the same slot can always complete |
| NilClaims.NilTicketlessStep | include/queue/Queue.h:187-242 | each operation of a call without a ticket of the NIL queue, in full |
| NilClaims.NilRefusalsAreExact | include/queue/Queue.h:200-240 | in every run of the NIL queue a call without a ticket comes back only with the window full, a pop only with it empty |
| NilClaims.NilLostPushClaim | include/queue/Queue.h:200-209 | in every run of the NIL queue a push whose CAS fails tests again with the present head, and another thread has claimed since the load |
| NilClaims.NilLostPopClaim | include/queue/Queue.h:229-240 | the same for a pop and the tail |
| SpscQueue.MoveRefinesFifo | include/queue/Queue.h:114-127 | with one producer and one consumer every atomic operation is a step of a bounded FIFO or invisible |
| SpscQueue.ExecutionIsFifo | include/queue/Queue.h:187-242 | every schedule of the two threads is a history of the bounded FIFO |
| SpscQueue.PoppedIsPrefixOfPushed | include/queue/Queue.h:150-165 | at every moment the popped sequence is a prefix of the pushed one and at most `size` elements wait |
| SpscQueue.WaitingProducerIsServed | include/queue/Queue.h:114-165 | a producer that spins on a taken slot waits for at most three operations of the consumer, none of which can spin |
| SpscQueue.WaitingConsumerIsServed | include/queue/Queue.h:114-165 | a consumer that spins on an empty slot waits for at most three operations of the producer, none of which can spin |
| SinglePair.MoveAlike | include/queue/Queue.h:128-242 | with one pusher and one popper every compare-and-swap operation is one load or store of the single-producer branch, with the same visible outcome |
| SinglePair.PairIsFifo | include/queue/Queue.h:128-242 | with one pusher and one popper the default queue is a bounded FIFO under every schedule, and its loads are never stale |
| Common.RemapSwaps | include/common/Common.h:30-36 | the shuffle exchanges the lowest Bits bits of an index with the Bits bits above them |
| Common.RemapInvolution | include/common/Common.h:30-42 | on 2^k >= 2^(2 Bits) slots the shuffle stays in range and undoes itself |
| Common.ShufflePermutes | include/common/Common.h:22-28 | whatever Bits GetIndexShuffleBits chooses for a power-of-two size, the shuffle permutes the slots |
| Common.ShuffleBitsAre | include/common/Common.h:9-28 | lines of 2^b elements, b from 1 to 8, exchange b bits exactly when contention is to be minimised and the queue has at least 2^(2 b) slots |
| Common.OtherLinesStay | include/common/Common.h:9-28 | with any other line length the slots keep their order |
| Common.Layout | include/queue/Queue.h:356-357 | from SIZE to size and shuffle: rounded up, the queue meets the hypotheses of the queue theorems exactly for 1 to 2^30 and is less than doubled; as it is, exactly when it divides 2^32 below 2^31 |
| Common.NextPowerOfTwo | include/common/Common.h:50-73 | the least power of two >= n for 1 <= n <= 2^31, and 0 for every other n |
| Framing.ParseAppend | include/platform/socket/DataSocketV.h:124-156 | framing is incremental: leftover and next bytes frame to what follows |
| Framing.ParseConserves | include/platform/socket/DataSocketV.h:124-156 | messages and leftover are the stream's bytes, none lost or reordered |
| Framing.SentMessagesAreFramed | include/platform/socket/DataSocketV.h:124-156 | messages that each begin with a header telling their size, sent one after the other and followed by anything, are framed as exactly these messages |
| Socket.ByteSource.Read | src/utils/Utils.cpp:66-107 | a read takes a prefix of the pending bytes, never more than offered, and is empty only when nothing is available before the next stop, `ok` telling would-block from closed |
| Socket.ServeAvailable | src/utils/Utils.cpp:66-107 | reading on piece by piece takes exactly the bytes before the first would-block, close or empty piece, however much is offered each time |
| StringV.DoubleBuffer.ReadHeader | src/platform/socket/data_handler/StringV.cpp:17-38 | the size is b0 + 256 b1 + 65536 b2 + 16777216 b3 of the four bytes at an offset of the flat window, whether or not they straddle the blocks |
| StringV.DoubleBuffer.ReadMessage | src/platform/socket/data_handler/StringV.cpp:40-62 | 68 bytes: those at an offset of the flat window, whether or not they straddle the blocks, then zeros |
| StringV.DoubleBuffer.GetNumberOfBuffers | src/platform/socket/data_handler/StringV.cpp:64-81 | the two io-vectors are exactly the free space behind the window |
| StringV.DoubleBuffer.Scatter | src/platform/socket/data_handler/StringV.cpp:64-81 | bytes read through the io-vectors land in order behind the window of the flat buffer |
| StringV.DoubleBuffer.Swap | include/platform/socket/data_handler/StringV.h:56 | after a swap the second block's bytes are found one block earlier |
| DataSocketV.Receiver.ReadMessages | include/platform/socket/DataSocketV.h:124-156 | delivers exactly the framing of the window and leaves exactly its leftover |
| DataSocketV.Receiver.MakeRoom | include/platform/socket/DataSocketV.h:86-97 | resetting or swapping leaves the unread bytes the same and the read offset inside the first block |
| DataSocketV.Receiver.Store | include/platform/socket/DataSocketV.h:69-82 | bytes read are appended to the window |
| DataSocketV.Receiver.Receive | include/platform/socket/DataSocketV.h:63-101 | reads everything available and fails exactly when the peer closed; what is delivered is the framing of all bytes read, the window is its leftover, and there is always room |
| SocketAgreement.SameBytesSameMessages | include/platform/socket/DataSocketV.h:63-156 | a corollary of both receivers' invariants: the same bytes give the same messages |
| SocketAgreement.DrainedMeansFramed | include/platform/socket/DataSocketV.h:63-101 | when all of a connection's bytes arrived, a receiver that read it out has delivered the framing of the whole stream |
| SocketAgreement.WireMessagesAreFramed | include/platform/socket/data_handler/StringV.h:20-60 | messages of 4 to 68 bytes that begin with their own length in four little-endian bytes are framed as sent, with nothing left over |
| SocketAgreement.SentIsDelivered | include/platform/socket/DataSocketV.h:63-156 | a double-buffer receiver that took such a stream, in any pieces, has delivered each message in order, zero padded to 68 bytes, and holds nothing |
| SocketAgreement.SentIsDeliveredToo | include/platform/socket/DataSocket.h:42-149 | a compacting receiver has delivered exactly the messages sent, and holds nothing |
| CompactingBuffer.Buffer.Compact | include/platform/socket/DataSocket.h:61-72 | a short window moves to the start unchanged and all other space is offered; a longer one stays |
| DataSocket.Receiver.ReadMessages | include/platform/socket/DataSocket.h:111-149 | delivers exactly the framing of the window, and terminates |
| DataSocket.Receiver.Receive | include/platform/socket/DataSocket.h:42-76 | reads everything available and fails exactly when the peer closed; delivered messages are the framing of all bytes read |
| EventChannel.HandledAppend | include/platform/EventChannel.h:108-135 | record handling is incremental |
| EventChannel.WrittenRecordsAreHandled | include/platform/EventChannel.h:48-51 | records written by notify reach the handler as their calls, in order |
| EventChannel.RecordLeadsTo | include/platform/EventChannel.h:20-40 | the 16 bytes of a record one by one: kind 1 is a new connection with the pointer, kind 2 a message with pointer and channel, any other kind nothing |
| EventChannel.Channel.ReadMessages | include/platform/EventChannel.h:108-135 | handles exactly the complete records of the window |
| EventChannel.Channel.Receive | include/platform/EventChannel.h:137-171 | reads everything available and fails exactly when the other end closed; the calls are those of all complete records read |
| DataWrap.DataWrap.Append | src/crypto/DataWrap.cpp:28-38 | appends everything when it fits and nothing otherwise |
| FrameSpec.XoredTwice | src/platform/socket/websocket/Frame.cpp:260-272 | masking twice with a key gives the payload back |
| FrameSpec.DecodeAppend | src/platform/socket/websocket/Frame.cpp:33-82 | more bytes never change a frame that was decided |
| FrameSpec.PartialPrefix | src/platform/socket/websocket/Frame.cpp:33-82 | a waiting frame waits on the header bytes it consumed alone |
| FrameSpec.RunAppend | include/platform/socket/websocket/Frame.h:100-200 | the meaning of a stream can be cut anywhere; after a failure nothing more happens |
| FrameWire.MaskedWith | src/platform/socket/websocket/Frame.cpp:260-272 | byte i is exclusive-ored, bit for bit, with byte i mod 4 of the key in network order |
| FrameWire.CompleteIff | src/platform/socket/websocket/Frame.cpp:33-272 | on the bytes of the wire: a frame is complete if and only if its first two bytes and its length form are good and all of it is there; then flags, opcode and length are those bytes', and payload byte i is that byte exclusive-or the key byte on the wire |
| FrameWire.InvalidIff | src/platform/socket/websocket/Frame.cpp:33-253 | on the bytes of the wire: a frame is refused if and only if RSV bits, opcode, control frame rules or length form are bad, or it is longer than the limit |
| FrameWire.CallsAre | include/platform/socket/websocket/Frame.h:202-273 | the call of each opcode, close codes included |
| FrameWire.FrameThenRest | include/platform/socket/websocket/Frame.h:99-200 | a whole final frame on the wire leads to its one call, and then the bytes behind it to theirs |
| FrameWire.NoCallYet | include/platform/socket/websocket/Frame.h:99-200 | other bytes lead to no call; they fail exactly when a frame among them is refused or a fragment |
| Frame.Mask | src/platform/socket/websocket/Frame.cpp:260-272 | exclusive-ors exactly the given range with the key, byte by byte as FrameWire.MaskedWith says |
| Frame.Frame.CheckValidity | src/platform/socket/websocket/Frame.cpp:121-158 | valid exactly when no RSV bit is set, the opcode is defined and control frames are final and short |
| Frame.Frame.ReadFrameHeader | src/platform/socket/websocket/Frame.cpp:84-119 | waits, refuses or moves on as the one-shot decoding of the frame's bytes allows |
| Frame.Frame.ReadFramePayloadLength | src/platform/socket/websocket/Frame.cpp:160-212 | the same for the extended length |
| Frame.Frame.ReadFrameMask | src/platform/socket/websocket/Frame.cpp:214-224 | the same for the masking key |
| Frame.Frame.ReadFramePayload | src/platform/socket/websocket/Frame.cpp:226-253 | the same for the payload, which is unmasked in place once and only when complete |
| Frame.Frame.ReadFrame | src/platform/socket/websocket/Frame.cpp:33-82 | from any resting point the resumable reader decides the frame as the one-shot decoder does |
| Frame.Frame.ProcessControlFrame | include/platform/socket/websocket/Frame.h:202-273 | the one call of a ping, pong or close frame, with the close code checked |
| Frame.Frame.ProcessMessage | include/platform/socket/websocket/Frame.h:99-200 | calls, bytes consumed and failure are those of the stream made of the consumed part of the current frame and the bytes presented |
| FramePresentation.PresentAll | include/platform/socket/websocket/Frame.h:99-200 | however the stream is cut, presenting the pieces with unread bytes again gives the calls, total consumption and failure of the whole stream |
| FrameWriter.GetFrameHeader | src/platform/socket/websocket/Frame.cpp:313-359 | the printed header: FIN, opcode, mask bit, shortest length form, key; none above 2^63 - 1 |
| FrameWire.PrintedIs | src/platform/socket/websocket/Frame.cpp:313-359 | a printed frame byte by byte: FIN and opcode, mask bit and shortest length form, key in network order, payload exclusive-or key |
| FrameWriter.HeaderFields | src/platform/socket/websocket/Frame.cpp:84-224 | the reader's fields of a printed header are the ones printed |
| FrameWriter.RoundTripIff | src/platform/socket/websocket/Frame.cpp:84-272 | a printed, masked frame followed by any bytes is read back whole if and only if it is receivable, and refused otherwise |
| FrameWriter.ReaderTakesPrinted | src/platform/socket/websocket/Frame.cpp:33-82 | the reader ends Done and valid with the frame's fields and its payload unmasked, exactly for receivable frames |
| FrameSender.FragmentsAre | include/platform/socket/websocket/Frame.h:276-297 | the fragments concatenate to the message; all but the last are full |
| FrameSender.LastSizeIs | include/platform/socket/websocket/Frame.h:278-308 | the last fragment is what max(1, ceil(size / max)) - 1 full ones leave |
| FrameSender.SendMsg | include/platform/socket/websocket/Frame.h:275-331 | the bytes sent are the frames of the fragments in order, with the keys drawn |
| FrameWire.SentFrameIs | include/platform/socket/websocket/Frame.h:299-331 | frame i sent, byte by byte: the opcode given when i is 0 and Continue after it, FIN exactly in the last, fragment i under the i-th key |
| FrameWire.SentFirstByte | include/platform/socket/websocket/Frame.h:308-309 | the first byte of frame i is the opcode, or 0 after the first frame, plus 128 exactly in the last |
| FrameWire.ReadBackIs | include/platform/socket/websocket/Frame.h:299-331 | what reading the frames gives for frame i: that opcode, FIN exactly in the last, and fragment i |
| FrameSender.SenderMeetsReader | include/platform/socket/websocket/Frame.h:275-331 | read frame by frame they give the fragments back if and only if the full and the last frame are receivable |
| Varint.EncSize | include/reflection/Reflection.h:1602-1614 | the encoder emits as many bytes as varint_size says |
| Varint.EncFits | include/reflection/Reflection.h:1598-1600 | never more than varint_max_size for a value of the type |
| Varint.DecodeEnc | include/reflection/Reflection.h:1616-1658 | decoding an encoded value followed by any bytes gives it and consumes exactly its bytes |
| Varint.DecodeAppend | include/reflection/Reflection.h:1660-1701 | a decoded or refused varint does not depend on the bytes after it |
| Varint.ZigZagIs | include/reflection/Reflection.h:1626-1629 | the zig-zag formula interleaves non-negative and negative values |
| Varint.SignRoundTrip | include/reflection/Reflection.h:1731-1737 | unsigned, signed and zig-zag values come back |
| Varint.DecodeSlow | include/reflection/Reflection.h:1664-1676 | the loop for short inputs computes the decoding |
| Varint.DecodeUnrolled | include/reflection/Reflection.h:1677-1700 | the unrolled path computes the same decoding |
| Varint.Read | include/reflection/Reflection.h:1703-1740 | single-byte shortcut, loop and unrolled path agree |
| ArchiveWire.VarintIs | include/reflection/Reflection.h:1616-1658 | byte i of a varint holds the bits 7 i to 7 i + 6, and announces another byte exactly when it is not the last |
| ArchiveWire.VarintLength | include/reflection/Reflection.h:1602-1614 | a varint has k bytes exactly when the number needs k groups of seven bits |
| ArchiveWire.DecodeIs | include/reflection/Reflection.h:1660-1701 | reading any bytes: 2, 3, 5 or 10 continuing bytes are too large, an early end is out of range, and else the groups read count, cut to the width |
| ArchiveRoundTrip.PatchReadsBack | include/reflection/BitSerializer.h:511-552 | the patched message size reaches the reader if and only if it fits, its varint is short enough, and in a swapped archive it is byte-symmetric |
| ArchiveRoundTrip.VarintSizeLimit | include/reflection/BitSerializer.h:549-552 | a varint message size of a w-byte type fits exactly below 128^w |
| ArchiveRoundTrip.SwappedSizeMisread | include/reflection/BitSerializer.h:549-552 | an instance of PatchReadsBack: in a swapped archive a one-byte message behind a two-byte size announces 256 bytes |
| ArchiveRoundTrip.RoundTripIff | include/reflection/BitSerializer.h:190-564 | reading what was written, followed by any bytes, gives the value and takes exactly its bytes if and only if every size fits its type |
| ArchiveWire.NumberIs | include/reflection/BitSerializer.h:190-290 | byte i of a number has weight 256^i, in a swapped archive counted from the end |
| ArchiveWire.OptionalIs | include/reflection/BitSerializer.h:415-423 | absent is a zero byte, present a one and the value; on reading any flag but zero is present |
| ArchiveWire.VariantIs | include/reflection/BitSerializer.h:425-449 | the id of the alternative in the archive's order and the alternative behind it |
| ArchiveWire.UnknownId | include/reflection/BitSerializer.h:1166-1175 | an id that no alternative has is a bad message, whatever follows |
| ArchiveWire.ProtocolIs | include/reflection/BitSerializer.h:511-552 | a message follows its own size, in host order in every archive |
| ArchiveWire.ContainerIs | include/reflection/BitSerializer.h:328-375 | a container is its count, in the archive's order, and its items |
| ArchiveWire.ItemIs | include/reflection/BitSerializer.h:309-326 | every item stands behind those before it, written as on its own |
| ArchiveWire.MemberIs | include/reflection/BitSerializer.h:292-306 | and so does every member |
| Growing.NewSizeIff | include/reflection/BitSerializer.h:121-145 | a resize is refused exactly when the true sum or product overflows 64 bits or the limit is passed, else the size is the exact fraction of the true sum |
| Growing.GrantedIff | include/reflection/BitSerializer.h:121-145 | requests are granted exactly up to one largest sum of size and request |
| Growing.RoomIff | include/reflection/BitSerializer.h:114-150 | growing always makes the room asked for if and only if the multiplier is at least the divisor |
| Growing.SizeAfterAppend | include/reflection/BitSerializer.h:114-150 | a list of requests is met with the same sizes in any cuts |
| Growing.ReachSuffices | include/reflection/BitSerializer.h:114-150 | all requests are granted when the bytes they advance over and the furthest reach of one of them are |
| Requests.AdvancesAre | include/reflection/BitSerializer.h:190-564 | the requests of a value, blocks and varint gaps included, advance over exactly its encoding |
| ArchiveWire.AsBytesIff | include/reflection/Reflection.h:858-859 | copied as a block, however deep in arrays, are exactly bytes, wider numbers unless the archive swaps, and in such archives packed aggregates of such members |
| ArchiveWire.NumbersAskFor | include/reflection/BitSerializer.h:309-375 | an array or contiguous container of numbers makes one request for all its bytes when it is such a block, and else one request a number |
| ArchiveWire.MembersAskFor | include/reflection/BitSerializer.h:292-306 | an aggregate of numbers makes one request when it is such a block, and else one a member |
| ArchiveWire.VarintAsksFor | include/reflection/Reflection.h:1616-1658 | a varint asks for the 2, 3, 5 or 10 bytes of the longest one of its type and advances over its own |
| ArchiveWire.MessageAsksFor | include/reflection/BitSerializer.h:489-564 | a message behind a varint size asks for the longest size, for what the message asks, and for the bytes by which its size is longer than the one reserved |
| Requests.ReachSufficesForAll | include/reflection/BitSerializer.h:114-150 | items are written, through whatever sizes, when their bytes and the furthest reach of one request are granted |
| Requests.NoConstantWillDo | include/reflection/BitSerializer.h:117-147 | for every constant below 2^60, two blocks of bytes that are refused although their bytes and the constant are granted |
| MemoryImage.ImageIsEnc | include/reflection/BitSerializer.h:292-366 | a type that is copied as bytes has in memory exactly the bytes that its items one by one would give, in either byte order |
| MemoryImage.DecIsLoaded | include/reflection/BitSerializer.h:798-866 | a block read gives the value, length and error that reading the items one by one would |
| OutArchive.Out.EnlargeFor | include/reflection/BitSerializer.h:114-150 | succeeds exactly when there is room or a new size is granted, takes that size, and then there is room; all bytes stay; failure changes nothing |
| OutArchive.Out.WriteVarint | include/reflection/Reflection.h:1616-1658 | appends the encoding; a fixed buffer takes it exactly when it fits, a growing one exactly when its request for the longest one is met |
| OutArchive.Out.WriteProtocol | include/reflection/BitSerializer.h:489-564 | appends patched size and message, through reserve, write, move ahead and patch, nested or not; succeeds exactly when the size is patchable and all requests are met |
| OutArchive.Out.Write | include/reflection/BitSerializer.h:190-564 | appends exactly the value's encoding, byte-serialisable data in blocks, and leaves earlier bytes alone; a fixed buffer takes it exactly when it fits, a growing one exactly when the whole list of its requests is met, and then has the size they lead to |
| OutArchive.Out.Call | include/reflection/BitSerializer.h:591-604 | writes the items, successful exactly as Write; a growing archive is trimmed to what was written |
| InArchive.In.ReadVarint | include/reflection/Reflection.h:1703-1740 | reads and steps over one varint |
| InArchive.In.Load | include/reflection/BitSerializer.h:750-1274 | loads the value, position or error that one-shot reading of the remaining bytes gives, byte-serialisable data in blocks |
| InArchive.Through | include/reflection/BitSerializer.h:591-604 | items written by the call operator and read by an archive over its buffer come back if and only if their sizes fit, and then the reader stands where the writer does |
| TicketLock.StepKeepsInv | src/common/spinlock.cpp:39-80 | every operation of any thread keeps tickets, counters and histories in step, across the wrap of the counters |
| TicketLock.MutualExclusion | src/common/spinlock.cpp:52-80 | in every interleaving of up to 2^32 threads at most one is inside |
| TicketLock.ServedInOrder | src/common/spinlock.cpp:52-80 | threads come in in the order in which they took tickets |
| TicketLock.ReleaseEnablesNext | src/common/spinlock.cpp:77-80 | leaving lets the holder of the next ticket in at its next look |
| TicketLock.NeverStuck | src/common/spinlock.cpp:54-69 | with tickets outstanding somebody is inside or the oldest ticket's thread is a bounded number of its own steps away |
| TicketLock.PausesPerTicketAhead | src/common/spinlock.cpp:54-69 | in every run a thread that looks with p tickets ahead of its own pauses exactly p times before it looks again |
| SchedulingTheorems.StepKeepsInv | src/thread/JobManager.cpp:110-383 | every critical section and worker step keeps each job's account, the worker count and a stopped manager's empty queues |
| SchedulingTheorems.EachJobInOnePlace | src/thread/JobManager.cpp:150-372 | in every interleaving each job handed over is queued, listed as processing, just taken off the list, or freed, in exactly one of these, and freed at most once |
| SchedulingTheorems.WorkersOwnTheirJobs | src/thread/JobManager.cpp:337-372 | a worker finds its job listed in both halves of onJobComplete, around the unlocked callback, and shares it with no other |
| SchedulingOrder.LimitsGrowIff | src/thread/JobManager.cpp:385-395 | limits grow with priority if and only if there are 3 to 10000 processors |
| SchedulingOrder.StarvedIff | src/thread/JobManager.cpp:385-395 | which priorities can never run, on which machines |
| SchedulingOrder.TakesHighestIff | src/thread/JobManager.cpp:215-238 | a job is popped only when all higher queues are empty, in every interleaving, if and only if there are 3 to 10000 processors |
| SchedulingOrder.QueuesStayOrdered | src/thread/JobManager.cpp:160-186 | on any machine, in every interleaving, each queue holds jobs of its priority in the order of addJob |
| SchedulingOrder.OldestFirst | src/thread/JobManager.cpp:226-234 | in every interleaving a worker that gets a job gets, of all jobs queued at that priority, the one added first |
| SchedulingOrder.SharesAreKeptIff | src/thread/JobManager.cpp:215-238 | in every interleaving at most getMaxWorkers(p) processing jobs have priority p or lower, if and only if there are 3 to 10000 processors |
| SchedulingOrder.ShareExceeded | src/thread/JobManager.cpp:385-395 | on every other machine a run leads to a share exceeded: one low job on one or two processors, 10001 high jobs above 10000 |
| SchedulingClaims.MaxWorkersIs | src/thread/JobManager.cpp:385-395 | every limit: 10000 dedicated; hardware - 3 + priority from three processors; 1, 0, 2^32 - 1 and 2^32 - 2 from HIGH down on one or two |
| SchedulingClaims.PopIs | src/thread/JobManager.cpp:215-238 | the front job of the highest queue that is not empty, not paused and below its limit moves to the end of the processing list; none is taken only when there is no such queue |
| SchedulingClaims.CancelIs | src/thread/JobManager.cpp:172-194 | if some queued item has the number, the first such item of the lowest such queue goes, its job is deleted and all else stays; else the first processing item with it loses its callback and all else stays |
| SchedulingClaims.CancelAllIs | src/thread/JobManager.cpp:110-138 | stopped, all queues empty, running jobs as before without callbacks, and the queued jobs deleted one by one from the lowest priority up and each queue from its front |
| SchedulingClaims.ClientStepIs | src/thread/JobManager.cpp:98-250 | what every other client call does to fields and workers: only cancelling everything wakes workers, and all of them |
| SchedulingProgress.StepAttendedIff | src/thread/JobManager.cpp:110-383 | a step leaves a startable job with every worker asleep or gone exactly when it unpauses such a job with all asleep, or is the last busy worker leaving |
| SchedulingProgress.NoLostWakeUpIff | src/thread/JobManager.cpp:110-383 | over a whole interleaving no startable job waits with every worker asleep or gone if and only if neither of these steps occurs |
| SchedulingProgress.StepLeavingStoppedIff | src/thread/JobManager.cpp:98-148 | a step of NoLostWakeUp: a running manager gets a leaving worker exactly by a restart before it has gone |
| SchedulingProgress.NoLostWakeUp | src/thread/JobManager.cpp:98-313 | clients that do not unpause such a job with all asleep and do not restart with a worker leaving never lose a wake-up |
| SchedulingProgress.BusyWorkerLooksAgain | src/thread/JobManager.cpp:291-372 | in every interleaving a busy worker with k own steps to go is about to look for a job once it has done k of them, whatever the others do |
| SchedulingProgress.StepServedIff | src/thread/JobManager.cpp:150-372 | the exact steps, by the state before them, after which a startable job has no worker that is about to look for one |
| SchedulingProgress.UnpauseWakesNobody | src/thread/JobManager.cpp:246-250 | wherever pausable jobs can run, unpausing leaves a startable job with every worker asleep |
| SchedulingProgress.EarlyRestartLosesJob | src/thread/JobManager.cpp:98-108 | wherever high jobs can run, restarting while a worker is leaving leaves a startable job with no worker |
| JobManager.JobManager.AddJob | src/thread/JobManager.cpp:150-170 | returns 0 and deletes the job exactly when stopped; otherwise appends it to its queue under the next number, 1 after 2^32 - 1; with a worker to spare below its limit it wakes all, and starts one more exactly when all are busy |
| JobManager.JobManager.PopJob | src/thread/JobManager.cpp:215-238 | moves the front of the first admissible queue from the top to the processing list, and finds none exactly when no queue is admissible |
| JobManager.JobManager.CancelJob | src/thread/JobManager.cpp:172-194 | what SchedulingClaims.Cancelled says item by item: the first queued job with the number, in the lowest queue that has it, is deleted, or else the first running one loses its callback |
| JobManager.JobManager.CancelJobs | src/thread/JobManager.cpp:110-138 | what SchedulingClaims.AllCancelled says item by item: everything queued is deleted, in order, and all callbacks go |
| JobManager.JobManager.OnJobComplete | src/thread/JobManager.cpp:337-372 | undisturbed it is the three steps of a working thread: the first listing of the job goes and the job is deleted, its listener told if and only if that listing has one; an unlisted job changes nothing |
| JobManager.JobManager.GetNextJob | src/thread/JobManager.cpp:291-313 | up to its next wait, what an awake thread does next: a job, sleep with no queue admissible, or gone exactly when the manager is stopped |
| JobQueue.JobQueue.QueueNextJob | src/thread/JobQueue.cpp:121-137 | nothing when no job waits or no slot is free; else from the back the jobs refused are lost and the first one taken is submitted |
| JobQueue.JobQueue.AddJob | src/thread/JobQueue.cpp:77-99 | refuses known jobs and changes nothing, queues others at the back (last in, first out) or the front, and offers from the back |
| JobQueue.JobQueue.OnJobNotify | src/thread/JobQueue.cpp:101-119 | the first occurrence of the finished job leaves the running ones, and then jobs are offered |
| JobQueue.JobQueue.CancelJob | src/thread/JobQueue.cpp:56-74 | the first occurrence of the job leaves the running jobs, or else the waiting ones, and nothing is offered |
| JobQueue.RunHasInv | src/thread/JobQueue.cpp:56-137 | in every run at most jobsAtOnce jobs are submitted and unfinished, and a FIFO queue submits in the order of addJob |
| JobQueue.NextInTurn | src/thread/JobQueue.cpp:88-125 | in every run the job to be offered next is the newest waiting in a last-in-first-out queue and the oldest waiting in the other kind |
| JobQueue.StepBusyIff | src/thread/JobQueue.cpp:56-137 | a call leaves a slot idle while jobs wait exactly when it cancels a running job while others wait, whatever the scheduler answers |
| JobQueue.NoSlotIdlesIff | src/thread/JobQueue.cpp:56-137 | over a whole run no slot idles while jobs wait if and only if no running job is cancelled while others wait |

## Left out

- AtomicQueueTheorems.TicketWindow: assumes that no loaded counter is 2^31 or more operations old when it is used; the same holds for every theorem over `Trace`, `Interleaving` and `NilTrace`. How far a stale load can mislead is `FullTestExactIff`.
- Weak-memory reordering; `push` and `pop` by `fetch_add`; sleeping and waking in `MPSCQueue`; the single-producer variant of the NIL queue.
- FIFO order with several producers or consumers, which the queue does not promise.
- DataSocketV.Receiver.Receive: sizes in the stream are 1 to 68 bytes, the size of a `Message`; with a size of 0 the reading loop does not end.
- DataSocket.Receiver.Receive: header and message sizes are at least 1 and at most a quarter of the buffer, the bound under which the leftover is always compacted.
- CompactingBuffer.Buffer.Compact: the `memcpy` of overlapping ranges is taken to copy correctly.
- Frame.Frame.ProcessMessage: calls after a failure are not modelled; fragmented messages always fail to be received because every reset forgets the fragment and the result of `append` is tested the other way round, and the model has that outcome. Close reasons and logging are left out.
- `WebSocket::readMessages` stops the socket when the opcode is Close after a call, also when only the header of a Close frame has arrived; that caller, the handshake and its HTTP parsing are left out.
- FrameWriter.GetFrameHeader: the returned buffer keeps its length, as when the return value is constructed in place; the move constructor of `DataWrap` would lose the offset.
- FrameSender.SendMsg: the frame count is taken to fit an `int`; results of `send` are ignored, as in the code.
- Varint.DecodeUnrolled: the copy of the decoder compiled in when varints are decoded inline is the same code and is not modelled twice.
- ArchiveRoundTrip.RoundTripIff: no protocol is defined in the repository; a protocol item writes its message, and what its protocol is told on reading is part of the value; a protocol that declares a member count would be copied as raw memory inside arrays, and is left out. Which aggregates are packed and which containers contiguous is part of the type. Types are a datatype of shapes; bitsets, associative containers, spans over the archive, known-id variants, sizes of type void and the allocation limit of the reader are left out.
- OutArchive.Out.EnlargeFor: requires overflow checks and a multiplier of at least the divisor; `RoomIff` says why. Failing allocations are left out.
- OutArchive.Out.Write: a block of 2^64 bytes or more, which no memory holds, counts as refused.
- OutArchive.Out.WriteProtocol: the patching archive's span may reach past the end of the data, as in the code; only the bytes it writes are modelled.
- TicketLock.MutualExclusion: `unlock()` without a ticket stores a number that no holder has and is left out, as are the other two spin locks.
- SchedulingTheorems.EachJobInOnePlace: the work of a job is an arbitrary step and callbacks are not recorded; "either completed or aborted, never both" does not hold of the code because of the unlocked callback. Worker objects are counted, not listed. Callbacks that call back into the manager under its lock are left out.
- JobManager.JobManager.OnJobComplete: other threads may come in between its three steps; that is what `Scheduling.Step` and the theorems over runs model.
- SchedulingProgress.StepAttendedIff: `cancelJobs` wakes the workers once; the `notify_all` calls of its waiting loop (JobManager.cpp:141-147) appear only as single workers waking up, and that the loop ends is not stated.
- JobQueue.RunHasInv: jobs are compared by identity, and each accepted job is a new one.
- epoll, pipes, timers, SSL, Base64, RSA, configuration, text parsing, fixed strings, database and logging code: input and output shells or easy code.
