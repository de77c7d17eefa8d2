# RTC-Testbench, modelled in Dafny

The testbench consists of a traffic generator (`reference`) and a reflector (`mirror`) for real-time
Ethernet. This project models the algorithms below its socket calls and proves what they keep in
every run:

| file | what it models |
|---|---|
| `Words.dfy` | shared helpers: 64-bit wrap-around, byte orders, quotient and remainder |
| `MetaData.dfy` | sequence counters, timestamps and initialization vectors carried by frames |
| `Frames.dfy` | VLAN tag insertion, MAC swap, the in-place and the copying mirror |
| `Profinet.dfy`, `FrameReports.dfy`, `ProfinetCode.dfy` | PROFINET frames without security, authenticated, and encrypted, from sender to mirror and back |
| `RingBuffer.dfy`, `MirrorPipeline.dfy` | the drop-oldest byte buffer and the AF_PACKET mirror built on it |
| `MirrorHops.dfy` | what a mirror sends and what the next receiver makes of it, over any number of mirrors |
| `SequenceTracking.dfy`, `MirrorBatches.dfy` | the receiver's sequence check, and the batches the AF_XDP mirror numbers with it |
| `Umem.dfy`, `UmemGenerator.dfy`, `GeneratorThreads.dfy`, `XdpSocket.dfy` | ownership of AF_XDP buffers between two threads and the kernel |
| `Schedule.dfy`, `LaunchTime.dfy` | wake times of the threads, launch times of the frames |
| `Backlog.dfy`, `Completions.dfy` | send times by frame number, hardware Tx timestamps |
| `Statistics.dfy`, `Histogram.dfy` | global and per-interval statistics, the round trip histogram |
| `PacketSend.dfy` | sending a cycle's frames with partial acceptance |
| `ThreadChain.dfy` | the order in which traffic classes wake each other |

`dafny verify dfyconfig.toml` checks the whole project.

Code that changes state is modelled by methods on arrays and by classes. Each such method is proved
against a function on values, and the theorems about whole runs are about these functions: an
action list, event list or operation list is arbitrary, and the theorem holds after every
prefix of it.

## What is assumed

* An AF_XDP ring is a first-in first-out queue of 4096 entries with all-or-nothing reservation. The
  mirror's critical sections under `xdp_data_mutex` exclude each other. The generator takes no lock; its
  section and the receiver's are modelled as if they excluded each other in `UmemGenerator.dfy`, and piece
  by piece in `GeneratorThreads.dfy`, which shows that it makes no difference. The kernel may take
  and return any number of chunks, in any order, between the ring operations of a critical section and
  between sections. For the generator, completions arrive in submission order.
* The cipher is a parameter with the contract of sections 2.1 and 2.2 of RFC 5116: what was sealed
  opens under the same nonce and associated data. `Profinet.ContractHasModel` shows that the
  contract can be met. Nothing is claimed about secrecy or forgery.
* Frames per cycle are between 1 and 2^32 (an inactive class has none).
* `sendmmsg` fails or accepts between one and all of the messages offered.
* Updates of a statistics record and `stat_update` exclude each other: the source runs the latter when all
  networking of the cycle is done. The build is one with MQTT, which has the per-interval records.
* `Schedule.dfy` is about classes whose Tx thread sleeps on the timer: the first of the chain and the
  standalone ones. The others are woken by their predecessor (`ThreadChain.dfy`).
* Clock readings, received frames and kernel behaviour are parameters. Sequence counters, frame counts
  and sums do not exceed their 64-bit variables; where 32-bit and 64-bit wrap-around matters (cycle
  counters in frames, launch times, round trip times, histogram index) it is modelled.

## Where the code does less than one might expect

Each of these is stated as the exact condition under which the property holds.

* A frame that reaches the AF_PACKET mirror with its VLAN tag is accepted and gets a second tag. The block stored
  for it is four bytes too long (`Profinet.MirrorKeepsGood`), so a cycle is cut into the stored blocks if and
  only if all its frames came stripped and fit (`MirrorPipeline.FramingExact`, `MirrorPipeline.CycleExactly`).
  What leaves for a tagged frame alone in its cycle is a frame of the right length whose contents are four
  bytes off. Every receiver accepts it and reads another number and frame id from it
  (`MirrorHops.UnsoundHop`, `MirrorHops.SecureRoundTrip`). Without security this goes unnoticed if and only if
  the shifted fields happen to mean the same (`MirrorHops.HopExactly`); `MirrorHops.CopyingTagsTwice` shows
  a frame for which they do not and one for which they do. With security nothing is claimed about
  whether the shifted frame authenticates, because the assumed contract of the cipher rules out no forgery.
* `received_frames` is overwritten, not accumulated; it describes the Tx ring if and only if no Rx
  section starts while an announcement is pending (`Umem.AnnouncementExact`, for example
  `Umem.FirstFrameForgotten`). Threads that keep to their wake times guarantee this if and only if not both
  the Rx offset is 0 and the Tx offset the whole cycle (`Schedule.ExactUnlessTouching`,
  `Schedule.TouchingForgets`). The check in `config_sanity_check` accepts that case, although its message
  speaks of "less than".
* The generator's Tx reservation does not protect chunks that the kernel holds; in every run a batch
  overwrites one if and only if more than 4096 frames are outstanding with it
  (`UmemGenerator.EveryRunOverwrites`, for example `UmemGenerator.ReservationIsNotEnough`).
* The base time of a launch time is on the cycle grid if and only if the clock has reached the start time
  or the cycle divides 2^64 (`LaunchTime.BaseTimeAligned`, for example `LaunchTime.ClockBeforeStart`).
* With AF_XDP launch times or hardware timestamps the encrypted pattern starts with header bytes
  (`ProfinetCode.PatternShifted`, for example `ProfinetCode.PatternShiftedFails`).
* After 2^32 cycles sender and receiver use the same initialization vector only under the condition of
  `MetaData.SenderReceiverIvAgree` (for example `MetaData.IvsDiffer`).
* The AF_XDP generator drains completions before it records its batch. A completion reads the send time of
  its own batch if and only if that batch has been recorded by then; otherwise it reads that of the latest
  batch that used the slot, 1024 cycles or more earlier, or zero, and is ignored
  (`Backlog.CompletionExactly`, `Backlog.DrainBeforeRecord`, `Backlog.DrainInFirstRound`, for example
  `Completions.EarlyCompletion`).
* A reset clears the global statistics but not the histogram; the two round trip counts agree if and only if
  no reset was served after a frame had arrived (`Statistics.HistogramAgrees`, for example
  `Statistics.HistogramOutlivesReset`).
* Rejected frames count in `received_frames` but do not advance the expected number. The batches the AF_XDP
  mirror records carry growing numbers if and only if no cycle has more rejected than flagged frames
  (`MirrorBatches.LogIncreases`, for example `MirrorBatches.RejectedReachesBack`).
* A low TSN class without the high one is never woken (`ThreadChain.EveryClassTriggered`, for example
  `ThreadChain.LowClassAlone`).

## Model

| member | source | states |
|---|---|---|
| MetaData.CounterRoundTrip | src/utils.h:121-138 | a counter written to the meta data reads back modulo n * 2^32, and unchanged exactly during the first 2^32 cycles |
| MetaData.CounterLayout | src/utils.h:121-138 | on the wire come the frame's position in its cycle and then the cycle, as 32-bit numbers |
| MetaData.SetSequenceCounter | src/utils.h:214-222 | only the eight counter bytes change and the counter reads back |
| MetaData.IvBytes | src/utils.c:202-213 | the vector is the prefix followed by the low six bytes of the counter, least significant first |
| MetaData.IvInjective | src/utils.c:202-213 | two counters share an initialization vector if and only if they agree modulo 2^48 |
| MetaData.SenderReceiverIvAgree | src/profinet.c:223-237 | the vectors of sender and receiver agree if and only if the completed 2^32-cycle rounds times n are a multiple of 2^16, in particular in the first round |
| MetaData.IvsDiffer | src/profinet.c:223-237 | with one frame per cycle they differ for frame 2^32 |
| Frames.MakeRoom | src/utils.c:69-70 | the overlapping move shifts the frame by four bytes and leaves addresses and the rest of the buffer alone |
| Frames.InsertVlanTag | src/utils.c:62-77 | the buffer holds the tagged frame, or is untouched when the result would exceed the chunk |
| Frames.SwapMacAddresses | src/utils.c:49-60 | destination and source are exchanged, nothing else; short frames are untouched |
| Frames.BuildVlanFrameFromRx | src/utils.c:79-103 | the new frame is the received one with addresses exchanged and tag inserted, or is untouched when it is too short |
| Frames.MirrorInPlace | src/profinet.c:346-353 | the in-place mirror leaves exactly the frame the copying mirror would build |
| Frames.InPlaceEqualsCopy | src/utils.c:62-103 | tagging then swapping equals the copying mirror byte for byte |
| Frames.StripTagged | src/profinet.c:172-184 | stripping undoes tagging if and only if the EtherType is the one written into the tag |
| Frames.MirrorTwice | src/utils.c:79-103 | reflecting a frame twice restores its addresses and keeps its contents |
| Frames.MirroredCounter | src/utils.c:352-393 | the counter at the fixed meta data offset of the reflected frame is the one decoded from the stripped frame |
| Frames.OffsetCountsHeaders | src/utils.c:352-393 | for every frame type the meta data offset counts the headers that precede it |
| Profinet.PreparedIsGood | src/utils.c:105-200 | what the sender prepares in any security mode carries its number, authenticates and shows its payload |
| Profinet.GoodIsAccepted | src/profinet.c:166-302 | such a frame is accepted with or without its tag, authenticates, and number and payload are recognised |
| FrameReports.ClassifyExactly | src/profinet.c:166-197 | which frames are accepted, on their bytes: length, EtherType behind the tag or the addresses, configured length; and the reason otherwise |
| FrameReports.AuthenticExactly | src/profinet.c:225-290 | an accepted frame is reported as authentic if and only if the cipher opens the frame's own bytes under the vector of its own counters, with the spans of each mode |
| FrameReports.ReportExactly | src/profinet.c:199-315 | number, timestamp, frame id and payload comparison reported for an accepted frame, at their places in the frame |
| FrameReports.FrameAfterwards | src/profinet.c:204-302 | what is left in the buffer: only the timestamp changes, and the frame is sealed or encrypted again over the new bytes |
| FrameReports.PreparedExactly | src/utils.c:105-200 | the frame as it is sent: only the meta data is written into the initialized frame, and the spans of each mode are sealed under the vector of the frame's own number |
| FrameReports.AlteredIsReported | src/profinet.c:239-245 | under a cipher that opens only its own checksums, a frame with an altered checksum is reported as not authentic |
| FrameReports.StrictCipherExists | src/security.c:98-129 | there is such a cipher that meets the assumed contract |
| Profinet.MirrorKeepsGood | src/profinet.c:211-363 | the mirror accepts a good frame and exchanges its addresses; the block it builds is a good frame again if and only if it works in place or the tag was stripped, otherwise it is four bytes longer and keeps everything behind the first EtherType |
| Profinet.StampArrives | src/profinet.c:204-209 | the receiver reports the timestamp and frame id the sender wrote |
| Profinet.ContractHasModel | src/security.c:63-96 | the assumed contract of the cipher is satisfiable |
| ProfinetCode.InitializeProfinetFrame | src/profinet.c:19-140 | the frame buffer holds header, pattern and zero padding |
| ProfinetCode.InitialFrameLayout | src/profinet.c:19-119 | what the initialized frame holds, offset by offset, in both layouts |
| ProfinetCode.InitialFrameIsReady | src/profinet.c:122-140 | an initialized frame meets what the round trip theorem asks of a frame to be sent |
| ProfinetCode.PatternAligned | src/tc.c:692-696 | the pattern that is encrypted starts with the configured payload pattern |
| ProfinetCode.PatternShifted | src/tc.c:176-185 | with the AF_XDP meta data shift it does so if and only if the payload pattern repeats the last 24 header bytes |
| ProfinetCode.PatternShiftedFails | src/tc.c:176-185 | no payload pattern that starts with a zero byte survives the shift |
| ProfinetCode.PrepareFrameForTx | src/utils.c:105-200 | stamping and protecting in place computes the prepared frame and changes nothing behind it |
| ProfinetCode.ProtectInPlace | src/utils.c:150-199 | tag, or ciphertext and tag, are written over the protected spans only |
| ProfinetCode.ParseHeader | src/profinet.c:166-197 | the parser decides acceptance, header length and tag presence as classified |
| ProfinetCode.ReceiveProfinetFrame | src/profinet.c:142-302 | the receiver reports what the specification reports and leaves the restamped, protected frame in the buffer; a rejected frame is untouched |
| RingBuffer.Ring.constructor | src/ring_buffer.c:15-37 | a new buffer is empty |
| RingBuffer.Ring.Add | src/ring_buffer.c:48-84 | the buffer holds the newest bytes of its contents followed by the block; a block larger than the buffer changes nothing |
| RingBuffer.Ring.Fetch | src/ring_buffer.c:86-130 | the oldest bytes are returned in order across wraps and removed; a request larger than the buffer returns nothing |
| RingBuffer.QueueExactly | src/ring_buffer.c:48-130 | a block that fits displaces exactly as many of the oldest bytes as do not fit; a fetch returns at most what was asked for, all there is if less, nothing if more than the size |
| RingBuffer.EveryRunAccounted | src/ring_buffer.c:48-130 | after any adds and fetches accepted bytes are fetched, dropped or held, the held ones are the newest, and nothing was dropped if and only if fetched and held bytes make up the stream |
| RingBuffer.EveryRunExplained | src/ring_buffer.c:48-130 | in every run, overflowing or not, the bytes fetched are the accepted stream with the dropped bytes removed, in order |
| RingBuffer.AddsOnlyKeepNewest | tests/unit/ring_buffer_test.c:71-97 | without fetches the buffer is the last min(size, total) bytes |
| MirrorPipeline.FramingExact | src/tc.c:417-426 | cutting the drained bytes gives exactly the stored frames if and only if all have the frame length and together fit |
| MirrorPipeline.FramingAfterOverflow | src/ring_buffer.c:75-81 | after an overflow the first byte is a frame start if and only if the frame length divides the buffer size, and then only the oldest frames are missing |
| MirrorPipeline.CyclesIndependent | src/tc.c:343-426 | every drain empties the buffer, so each cycle sends the newest bytes of its own frames, also after an overflow |
| MirrorPipeline.MirrorCycle | src/profinet.c:354-363 | a cycle's authentic frames that came stripped and fit leave one for one, in order, correctly cut, and authenticate again with number and payload, whatever timestamps are written on receive and on Tx |
| MirrorPipeline.CycleExactly | src/profinet.c:354-363 | with room for all of them, the drained bytes are cut into the stored frames if and only if all frames of the cycle came stripped |
| MirrorPipeline.StoredLength | src/profinet.c:192-197 | an accepted frame occupies the frame length if and only if its tag was stripped |
| MirrorPipeline.ReceiveAndReflect | src/profinet.c:142-353 | with AF_XDP an accepted frame is left in the chunk in its reflected form, a rejected one untouched |
| MirrorPipeline.ReceiveAndStore | src/profinet.c:142-366 | an accepted frame is appended to the buffer in its reflected form, a rejected one is not |
| MirrorPipeline.DrainFrames | src/tc.c:231-258 | the Tx side empties the buffer, cuts it and stamps frames without security |
| MirrorPipeline.StampedKeepsCounter | src/utils.h:184-202 | stamping on Tx keeps the sequence counter, and protected frames entirely |
| MirrorPipeline.StampedHealthy | src/utils.h:184-202 | stamping on Tx keeps a frame authentic with its number and payload |
| MirrorHops.SendsOne | src/tc.c:417-426 | for a frame alone in its cycle the copying mirror sends exactly one frame: its block, cut at the frame length and stamped |
| MirrorHops.SoundHop | src/profinet.c:346-363 | what a mirror sends that works in place or gets the frame stripped is again an authentic frame with number and payload, addresses exchanged, Tx stamp included |
| MirrorHops.SoundFields | src/utils.h:167-202 | the frame such a mirror sends keeps its frame id and carries the timestamp of its Tx thread (copying, without security) or of its receiver |
| MirrorHops.UnsoundHop | src/tc.c:231-258 | for a tagged frame the copying mirror sends a frame of the right length and tag whose tail is the received frame from the tag control information on, with the number that follows from it |
| MirrorHops.UnsoundReceived | src/profinet.c:166-302 | every receiver accepts that frame, with that number and the tag control information as frame id; without security it finds it fine if and only if the shifted fields coincide |
| MirrorHops.HopExactly | src/profinet.c:346-363 | without security a hop keeps a frame healthy if and only if it works in place, gets it stripped, or the shifted fields coincide |
| MirrorHops.EveryHopIsGood | src/profinet.c:346-363 | after any number of mirrors that each work in place or get the frame stripped, it still authenticates with its number and payload |
| MirrorHops.EveryHopExactly | src/profinet.c:346-363 | without security the frame is healthy all the way if and only if every hop keeps it so in that sense |
| MirrorHops.EveryHopExchanges | src/utils.c:49-60 | the addresses have been exchanged once per mirror, on either path |
| MirrorHops.SecureRoundTrip | src/utils.c:134-199 | a prepared frame authenticates at the mirror, one frame leaves and the reference accepts it; it authenticates there again, with its frame id and the mirror's timestamp, if the mirror works in place or the tag was stripped, otherwise number and frame id are those of the shifted fields, and without security this goes unnoticed if and only if these coincide |
| MirrorHops.CopyingTagsTwice | src/profinet.c:354-363 | two tagged 64-byte frames at the copying mirror: number 0 is read as 0x88928000, number 0x88928000 as itself |
| SequenceTracking.Receiver.Frame | src/profinet.c:308-336 | one frame moves the expected number by one, or by two and counts an error |
| SequenceTracking.Receiver.Frames | src/profinet.c:308-336 | a whole stream of frames leaves the state that tracking the stream describes |
| SequenceTracking.ErrorsCountLosses | src/profinet.c:308-336 | for every increasing stream errors never exceed losses, the difference is the lag, and a match proves all losses counted |
| SequenceTracking.BurstCleared | src/profinet.c:321-336 | a burst of k losses is cleared by exactly k flagged frames |
| SequenceTracking.AheadNeverRecovers | src/profinet.c:321-336 | once the expected number is ahead every frame of a gap-free continuation is flagged and the distance grows |
| SequenceTracking.AlwaysFlagged | src/profinet.c:308-336 | a gap-free run is flagged throughout if and only if it starts ahead or is no longer than the lag |
| SequenceTracking.BatchNumber | src/tc.c:512-525 | the mirror's batch number is that of the batch's first frame if and only if nothing was rejected and the receiver was neither ahead nor further behind than the batch is long, or the rejected frames make up for its being ahead |
| MirrorBatches.ContinuesExactly | src/tc.c:512-525 | a batch starts where the previous one may have ended and ends at the expected number if and only if no more frames were rejected than flagged |
| MirrorBatches.LogIncreases | src/tc.c:512-525 | in every run the recorded numbers grow and stay below the expected one if and only if no cycle has more rejected than flagged frames |
| MirrorBatches.NoneRejected | src/profinet.c:321-336 | without rejected frames every stream, with losses, duplicates and late frames, gives such batches |
| MirrorBatches.RejectedReachesBack | src/xdp.c:814-870 | a rejected frame alone in its cycle records the previous frame's number again |
| MirrorBatches.MirrorLookup | src/xdp.c:87-124 | in every such run, lookups for the frames of a gap-free batch that the receiver kept track of find the time that batch was sent |
| Umem.EveryRunKeepsInvariant | src/xdp.c:391-403 | in every interleaving each Rx chunk has exactly one owner and outstanding_tx is the number submitted and not recycled |
| Umem.OnePlace | src/xdp.c:501-572 | every Rx chunk is in exactly one of the seven places, no other chunk in any |
| Umem.RxConserves | src/xdp.c:736-871 | receiving loses and duplicates no chunk, also on the branches where a reservation fails |
| Umem.TxConserves | src/tc.c:507-531 | neither does submitting and recycling |
| Umem.DispatchExactly | src/xdp.c:766-812 | frames are passed on if and only if there is room at once or after waking the kernel, otherwise they stay in the Rx ring |
| Umem.ReclaimExactly | src/xdp.c:530-571 | the same for completions and the fill ring |
| Umem.ReservationsSucceed | src/xdp.c:770-812 | in every reachable state fill and Tx reservations succeed at the first attempt |
| Umem.RxForwardsAll | src/xdp.c:754-870 | every Rx section appends exactly the peeked frames, in order, to the reserved Tx entries |
| Umem.TxRecyclesAll | src/xdp.c:519-571 | every Tx section returns all completions it sees to the fill ring, in order |
| Umem.StrandedIsOverwritten | src/tc.c:631-635 | reserved entries that stay behind are exactly the overwritten announcements |
| Umem.AnnouncementExact | src/tc.c:512-528 | received_frames describes the reserved entries if and only if no Rx section found a pending announcement |
| Umem.FirstFrameForgotten | src/tc.c:631-635 | two Rx sections in a row that receive a frame each reserve two entries and announce one |
| Umem.DepartInOrder | src/tc.c:507-531 | in every run what the kernel took from the Tx ring, then the Tx ring, then the reserved entries are together the frames that arrived, in order |
| Umem.AlternatingIsExact | src/tc.c:507-531 | with alternating threads reserved entries equal received_frames, and are none after each Tx section |
| UmemGenerator.EveryRunKeepsInvariant | src/xdp.c:629-719 | the chunks in flight are those of the newest frames generated, in order, and the kernel takes all frames in the order they were generated |
| UmemGenerator.DrainForgetsAll | src/xdp.c:468-499 | the drain after a batch releases every completion it sees and lowers outstanding_tx by as many |
| UmemGenerator.ChunksDistinct | src/xdp.c:659-664 | consecutive frames use different chunks if and only if there are at most 4096 of them |
| UmemGenerator.OverwriteExactly | src/xdp.c:638-664 | a batch overwrites a chunk in flight if and only if outstanding_tx plus the batch exceeds 4096 |
| UmemGenerator.EveryRunOverwrites | src/xdp.c:638-664 | in every run the next batch overwrites a chunk in flight if and only if outstanding_tx plus the batch exceeds 4096 |
| UmemGenerator.EveryRunDistinct | src/xdp.c:468-499 | in every run the chunks in flight are outside the Rx half, and distinct if and only if outstanding_tx is at most 4096 |
| UmemGenerator.ReservationIsNotEnough | src/xdp.c:638-648 | a run after which a reservation is granted for a batch that overwrites a chunk in flight |
| UmemGenerator.EveryRunKeepsRx | src/xdp.c:791-812 | next to the generator the Rx half stays partitioned between fill ring, kernel and Rx ring |
| UmemGenerator.ReceiveKeepsRx | src/xdp.c:857-868 | without mirroring every peeked frame is recycled at once, in order |
| GeneratorThreads.GenerateInPieces | src/xdp.c:629-702 | the generator's section is a submit and a collect on the outbound rings, with kernel activity between |
| GeneratorThreads.ReceiveInPieces | src/xdp.c:736-871 | the receiver's section is kernel activity and one recycling on the inbound rings |
| GeneratorThreads.InterleavingIrrelevant | src/tc.c:501-506 | however the generator, which takes no lock, and the receiver interleave, the rings end up as if their sections had excluded each other |
| GeneratorThreads.EveryInterleaving | src/tc.c:501-506 | in every state of every interleaving of the pieces, also inside a section, the chunks in flight are those of the newest frames and the Rx half is partitioned |
| GeneratorThreads.InterleavingOverwrites | src/xdp.c:638-664 | and the overwrite condition holds there too |
| GeneratorThreads.RunInPieces | src/tc.c:501-506 | every run of whole sections is such an interleaving |
| XdpSocket.Xsk.constructor | src/xdp.c:384-403 | opening the socket puts every Rx chunk into the fill ring |
| XdpSocket.Xsk.ReceiveFrames | src/xdp.c:736-871 | the Rx critical section computes the Rx transition |
| XdpSocket.Xsk.CompleteTx | src/xdp.c:501-572 | recycling computes its transition |
| XdpSocket.Xsk.SubmitReceived | src/tc.c:507-531 | the mirror's Tx critical section computes the Tx transition |
| XdpSocket.Xsk.CompleteTxOnly | src/xdp.c:468-499 | forgetting completed frames computes its transition |
| XdpSocket.Xsk.GenerateAndSend | src/xdp.c:629-702 | the generator loop hands out the next chunks in the circle and submits them |
| Schedule.Timespec.IncrementPeriod | src/utils.c:33-42 | the instant moves by exactly the period and stays normalized |
| Schedule.WakeUp | src/utils.c:233-246 | the k-th instant is k + 1 cycles after start time and both offsets, or after the clock reading, without drift |
| Schedule.WakeInstants | src/utils.c:233-246 | the instants of both threads counted from the configured start |
| Schedule.WakesAlternate | src/config.c:1268-1281 | for every cycle Rx is before Tx and Tx not after the next Rx, meeting it if and only if the offsets span the cycle |
| Schedule.CountsAlternate | src/tc.c:562-640 | sections that run in the order of their instants alternate |
| Schedule.InTurnIsInWakeOrder | src/utils.c:233-246 | taking turns is such an order, for any number of cycles |
| Schedule.ScheduleKeepsRingExact | src/tc.c:507-531 | in a mirror that keeps to its instants received_frames is exact, and after each Tx section the frames that arrived are, in order, those on the wire and those in the Tx ring |
| Schedule.TouchingMayNotAlternate | src/config.c:1268-1281 | if the offsets span the whole cycle the instants do not force alternation |
| Schedule.TouchingIsAccepted | src/config.c:1268-1281 | the configuration check lets offsets through that span the whole cycle |
| Schedule.TouchingForgets | src/config.c:1268-1281 | in that case a frame can be reserved and never announced |
| Schedule.ExactUnlessTouching | src/config.c:1268-1281 | keeping to the instants keeps received_frames exact in every run if and only if the offsets do not span the whole cycle |
| LaunchTime.DurationRounding | src/tx_time.c:13-21 | the frame duration is the transmission time rounded down |
| LaunchTime.BaseTimeNext | src/tx_time.c:44-47 | the base time is after the clock reading by at most a cycle |
| LaunchTime.BaseTimeAligned | src/tx_time.c:44-47 | it is on the cycle grid if and only if the clock has reached the start time or the cycle divides 2^64 |
| LaunchTime.BaseTimeLeast | src/tx_time.c:31-47 | from the start time on it is the least grid instant still to come |
| LaunchTime.ClockBeforeStart | src/tx_time.c:46-47 | a clock one nanosecond before the start time gives a base time off the grid |
| LaunchTime.LaunchIncreasing | src/packet.c:190-233 | launch times strictly increase over a cycle's frames for any clock that does not run backwards |
| LaunchTime.WindowsFit | src/tx_time.c:31-49 | windows that fit behind the offset start there, lie in the next cycle and do not overlap |
| Backlog.RecordBatch | src/stat.c:474-503 | exactly the slots of the batch's recorded frames get the batch's time |
| Backlog.SlotHoldsSendTime | src/stat.c:485-497 | until the frame 1024 cycles later is sent, a recorded frame's slot holds the time of the batch that sent it |
| Backlog.LookupWithinBacklog | src/stat.c:616-633 | any frame of the last 1024 cycles finds the send time of its cycle's first frame with hardware timestamps, its own without |
| Backlog.SendTimeOf | src/stat.c:616-633 | the lookup as the code does it reads that slot |
| Backlog.StandsExactly | src/stat.c:52-58 | the frame looked up is the only one whose send time stands for the frame in that sense |
| Backlog.OnlyFirstFrames | src/stat.c:485-497 | with hardware timestamps only the slots of first frames are ever written |
| Backlog.OldFrameOverwritten | src/stat.c:52-58 | after that the slot belongs to the later frame |
| Backlog.SlotsAgree | src/packet.c:376-382 | receive path and completion paths compute the same slot and position for every frame, per cycle or per frame, also after the counter in the frame wrapped |
| Backlog.CompletionFindsSendTime | src/packet.c:376-392 | a completion processed after its cycle was recorded finds the send time of the cycle's first frame |
| Backlog.ReadExactly | src/stat.c:616-633 | from a zeroed backlog a lookup reads the time of the latest batch that wrote the slot; it is that of the frame's own batch if and only if that batch has been recorded and not overwritten |
| Backlog.CompletionExactly | src/xdp.c:701-713 | a completion within 1024 cycles reads the time of its own batch if and only if that batch was recorded before, else the latest time in the slot or zero |
| Backlog.DrainBeforeRecord | src/xdp.c:701-713 | a completion processed before its batch is recorded finds the send time of 1024 cycles earlier, if that frame was sent |
| Backlog.DrainInFirstRound | src/xdp.c:96-97 | during the first 1024 cycles it finds zero, so the completion is ignored |
| Backlog.RoundTripMeasured | src/stat.c:635-641 | the round trip reported is measured, in whole microseconds, from the batch that sent the cycle's first frame with hardware timestamps, the frame itself without |
| Backlog.RoundTripUnknown | src/stat.c:635-641 | without a recorded send time it is zero |
| Completions.NeverAlreadyProcessed | src/stat.c:530-536 | a remark: in no run does a completion take the branch for a consumed timestamp |
| Completions.CompletedCounts | src/stat.c:513-574 | a first-frame completion counts once, as the latency since the send time if the hardware time is later, else as a miss; ProcFirst and ProcBatch latencies are taken exactly for first and last frames with ordered timestamps |
| Completions.CompletedEntries | src/stat.c:530-574 | what a completion does to the backlog: only its own slot, and which timestamp of it |
| Completions.CompletedConsumes | src/stat.c:755-808 | every ProcBatch sample consumes a stored Rx timestamp |
| Completions.EveryRunAccounted | src/packet.c:367-401 | in every run latencies plus misses are the first-frame completions since the last reset, ProcFirst samples do not exceed latencies, ProcBatch samples are those since the last reset and in total do not exceed the stored Rx timestamps |
| Completions.CompletionReadsOwnBatch | src/xdp.c:87-124 | in every run of sends, receptions, completions and resets, also after the counter in the frame wrapped, a completion reads its own batch's time if and only if that batch came before it and no batch in between wrote the slot |
| Completions.EarlyCompletion | src/xdp.c:701-713 | a run in which a completion comes before its batch, reads zero and is not counted |
| Completions.RxTimestampStays | src/stat.c:596-614 | in every run, once the first frame of a cycle is received with a hardware timestamp, the slot of every frame of the cycle holds it until a last-frame completion or another first frame |
| Completions.SampleTaken | src/stat.c:700-808 | hence a later completion above both times yields exactly one ProcBatch (last frame) or ProcFirst (first frame) latency, the time since reception in whole microseconds |
| Completions.NothingMeasured | src/stat.c:596-614 | if the measurement is off, no Rx timestamp is ever stored |
| Completions.RoundTripContext.FrameReceived | src/stat.c:596-614 | the first frame of a cycle stores its hardware Rx timestamp |
| Completions.RoundTripContext.FrameSentLatency | src/stat.c:513-574 | one slot's timestamps are counted and consumed |
| Completions.RoundTripContext.ProcBatchLatency | src/stat.c:755-808 | the Rx timestamp is cleared in any case and yields at most one sample |
| Completions.RoundTripContext.ProcessCompletion | src/xdp.c:87-124 | one completion has exactly the specified effect |
| Statistics.RecordMerged | src/stat.c:258-413 | recording into a merged record is recording into its last part |
| Statistics.EveryRunConserves | src/stat.c:175-214 | every counter, count, sum, minimum and maximum of the global record is that of the intervals published since the last reset and the current one |
| Statistics.SnapshotsAgree | src/stat.c:197-213 | the published global record is the merge of the intervals published since the last reset, this one included, also when a reset is served with it; a tick that is not due changes nothing but the start of the clock |
| Statistics.EveryRunSplits | src/stat.c:657-671 | the sums of the two Rx parts bound the sum of the whole to one microsecond per frame |
| Statistics.LatencyMeans | src/stat.c:635-671 | each of the eight latencies has count, sum, minimum and maximum of exactly the values the frames' own fields give, with nothing where timestamps are missing, out of order or too close |
| Statistics.TruncatesTowardsZero | src/stat.c:648-650 | one-way times are rounded towards zero, also when negative |
| Statistics.CounterMeans | src/stat.c:306-346 | each counter, outliers included, is the sum of what the events add to it |
| Statistics.GlobalSinceReset | src/stat.c:208-213 | in every run the global record is what the events since the last reset amount to |
| Statistics.DueExactly | src/stat.c:186-195 | an interval is published by the first tick at least the interval after the last publication |
| Statistics.IntervalsLongEnough | src/stat.c:182-195 | k published intervals took at least k times the configured interval, for a clock that does not run backwards |
| Statistics.HistogramSinceStart | src/stat.c:643-645 | in every run the histogram has been handed every round trip since the start |
| Statistics.HistogramAgrees | src/stat.c:208-213 | in every run buckets, underflow and overflow are all round trips since the start, the global count is those minus the ones resets discarded, and both agree if and only if no reset was served after a frame arrived |
| Statistics.HistogramOutlivesReset | src/stat.c:208-213 | one frame and a reset: the histogram counts it, the record does not |
| Statistics.ReceivedCommon | src/stat.c:258-312 | the field by field update computes the specified record |
| Statistics.Collector.SentBatch | src/stat.c:505-509 | a batch counts all its frames globally and in the interval |
| Statistics.Collector.ReceivedFrame | src/stat.c:643-681 | a frame is recorded in the histogram, globally and in the interval |
| Statistics.Collector.Update | src/stat.c:175-214 | a due interval is published and cleared, and a requested reset served after it |
| Histogram.RttHistogram.constructor | src/hist.c:24-44 | all buckets start empty, with as many buckets as microseconds between the bounds |
| Histogram.RttHistogram.Update | src/hist.c:70-89 | every bucket holds the number of samples with its value, with every index in bounds |
| Histogram.NothingLost | src/hist.c:70-89 | buckets, underflow and overflow together are exactly the samples |
| PacketSend.FillMessages | src/packet.c:190-255 | messages carry the next frames and request timestamps for first and last frames of a cycle |
| PacketSend.SendBatch | src/packet.c:257-270 | the inner loop offers what the kernel has not taken and what it takes continues the order |
| PacketSend.SendMessages | src/packet.c:173-276 | what the kernel has taken over call by call is a prefix of the frames, each once and in order, and all of them unless a call fails |
| PacketSend.StampsExactly | src/packet.c:235-248 | a timestamp is requested exactly for frames whose own number is the first or last of a cycle, and only with hardware timestamps |
| PacketSend.StampPositions | src/packet.c:235-248 | in a gap-free batch timestamps are requested for positions 0 and n-1 of each cycle only |
| ThreadChain.ChainVisits | src/thread.c:115-151 | the wake-up chain visits exactly the active classes from its start on, once and in order |
| ThreadChain.EveryClassTriggered | src/thread.c:170-187 | every active class takes part if and only if the low TSN class is not used without the high one |
| ThreadChain.LowClassAlone | src/thread.c:170-187 | with the low TSN class and RTC active and the high one not, nobody wakes the low one |
| ThreadChain.Threads.Link | src/thread.c:153-197 | links, first and last flags are set as the chain prescribes, and the configuration is refused if nothing starts the cycle |

## Left out

- libxdp ring internals, memory ordering and chunk addresses: chunk numbers and the queue contract above are used instead.
- OpenSSL: an abstract cipher with a contract; failures of the library itself are not modelled.
- Sockets, ioctls, BPF and XDP programs, thread creation and error-path cleanup: input and output.
- The DCP, LLDP, UDP and GenericL2 receivers: the same sequence rule on simpler frames.
- EtherCAT frames, workload plugins and workload statistics: foreign code; workload minima skip samples per interval and are not conserved by design.
- Configuration parsing, logging, JSON and MQTT output: plumbing. Only the checks that other modules rely on are modelled, as preconditions.
- The hand-over of burst frames between the generation thread and the Tx thread: a flag under a mutex.
- Averages: sums are integers, the double-precision quotients are not modelled.
- Backlog, SequenceTracking and Statistics counters are unbounded: 2^64 frames are out of reach.
- The launch time and timestamp control messages of a send request are reduced to the timestamp flag; launch times are in `LaunchTime.dfy`.
- Completions.Completed: `xdp_complete_tx_only` looks at one completion per drain; the model's events are the completions that are looked at.
- MirrorPipeline.ReceiveAndStore: an accepted frame with its tag of more than 4092 bytes is excluded, because the source then stores bytes from behind its 4096-byte frame buffer.
- Profinet.Reflected: defined only for blocks that fit into that buffer, for the same reason; `Fits` in `Profinet.dfy` names the case.
- MirrorHops.Sends: a mirror's frame alone in its cycle. Whole cycles are in `MirrorPipeline.MirrorCycle` and `MirrorPipeline.CycleExactly`. Frames an AF_XDP mirror rejects are forwarded as they are and not followed further.
- ProfinetCode.PatternShifted: payload patterns that do not fit behind the shifted header in the 4096 bytes of `frame_copy` are excluded.
- Ring buffer calls on a null buffer return at once and are not modelled.
