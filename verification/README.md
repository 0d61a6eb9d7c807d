# A verified model of the logic in ndt

ndt boots a kernel under QEMU, runs block-layer tests in it and reports a verdict. This project
models the parts of it that carry real logic and proves what they promise.

- **The ublk queue server** (`miniublk.c`). `UblkServer.dfy` has the handlers as functions,
  `UblkSystem.dfy` puts the thread, its two rings, the driver and the target file into one state
  machine of single steps, `UblkInvariant.dfy` and `UblkSteps.dfy` state and preserve the
  invariant, and `UblkTheorems.dfy`, `UblkWords.dfy`, `UblkIdle.dfy` and `UblkDrain.dfy` draw the
  conclusions over every run. `UblkUnsupported.dfy` lets the driver send anything. `UblkPasses.dfy`
  says which run the passes of the thread make, and `UblkQueue.dfy` is the server as a class that
  updates its fields in place; each of its methods is tied to the handler functions or to a legal
  run of the state machine, with 64-bit `user_data` packed and unpacked bit by bit (`UserData.dfy`,
  `Bits.dfy`).
- **Byte-level code**: the metadata writer and checker (`TagBytes.dfy`, `Metadata.dfy`), the data
  pattern beside it (`DataPattern.dfy`), the Internet checksum (`InternetChecksum.dfy`), the segment
  list (`IoVec.dfy`), the buffer arithmetic of the direct-I/O tests (`DioOffsets.dfy`), the
  descriptor windows (`DescriptorWindows.dfy`) and what the loop target stores and checks on
  recovery (`LoopTarget.dfy`).
- **Text that is printed here and parsed there**: zgrep's quoting (`ZgrepQuoting.dfy`), the cutting
  of the test list into groups (`Batching.dfy`), the result line and the verdict (`Sentinel.dfy`); and
  the bounded retries around module removal (`PatientRemoval.dfy`).

## What the queue model assumes of its surroundings

- The kernel is a set of nondeterministic steps: it consumes prepared entries one at a time and only
  while the thread waits (so submission may be partial), and it completes any entry it holds, in any
  order, at any moment, with any 32-bit result. One completion arrives per entry that the code filled
  in. An entry that it took and left unprepared is consumed and never completes; what a real ring
  makes of the stale contents of such a slot is not part of this model.
- The rings have at least the requested sizes, and a timed wait takes no submission entry (the
  kernel takes the timeout as an argument).
- The driver writes the descriptor of a tag only when it answers that tag's command with a request.
- The driver sends the loop target READ, WRITE and FLUSH only, because the target advertises basic
  parameters only. `UblkUnsupported.dfy` shows that this is exactly what the code needs.
- The queue depth is at most 65536, the range that `build_user_data` asserts for a tag. Constants of
  `linux/ublk_cmd.h` are written out; that header is not part of this model.

## Where the code does less than one might expect

Each of these is a theorem with its exact condition:

- A DISCARD, WRITE_ZEROES or unknown request leaves an unprepared entry in the submission ring: over
  every run, with a driver that may send anything, all entries stay prepared exactly when the loop
  target handles READ, WRITE and FLUSH only (`RingSoundIffSupported`). The first such request of
  a run is answered at once if a second slot is free, and otherwise nothing is ever issued for its tag
  again, however the run goes on (`RejectedRequestAnsweredIffSlot`, `AbandonedForever`);
  `DiscardIsLost` is a run of a one-tag queue whose first request is rejected.
- A wait without a limit can start while a target I/O is prepared, once STOPPING is set in the pass that
  leaves IDLE set (`UnboundedWaitWhileStopping`); such a wait starts with nothing prepared and no target
  I/O exactly when STOPPING is clear (`UnboundedWaitIsQuietIff`).
- Pages are never discarded under a prepared or running target I/O (`IdleIsSafe`), but they can be
  discarded under a request that the driver delivers after the last look at the completion ring
  (`DiscardCanMeetDelivery`): exactly when that ring holds an OK result at the moment of the discard
  (`DiscardMeetsDeliveryIff`).
- The accumulated options of zgrep read back exactly when no option has its only quote as the last
  character (`OptionsReadBackIff`). One such option spoils the line in one of two ways: its closing
  quote opens a quotation that never ends, or another option ends it and both are read as one word
  (`UnsafeOptionsCanBalance`).
- Recovery of an unchanged backing file is refused when its size is no multiple of 512
  (`RecoveryAgreesIffWholeSectors`).
- The direct-I/O tests stay inside their buffers exactly from 25 segments on, unless the transfer
  size is small, on devices that hold what is needed, and with transfers of a block at least
  (`InsideIffEnoughSegments`); shorter transfers get past the checks only with no segment allowed
  (`EmptyTransferOnlyWithoutSegments`).
- A module that vanishes after a failed attempt to remove it is reported as not removed
  (`SuccessIff`, `VanishedReportedAsFailure`); the branch for a used-up budget with a zero reference
  count is never taken (`AwaitZero`).
- The `int` product of queue number and window size overflows for pages of 2^30 bytes
  (`ProductFitsIff`).
- An earlier console line with the prefix of a result line decides the verdict
  (`ResultLineDecidesIff`). A result line that is still being written can give a wrong FAIL, never a
  wrong PASS: it passes exactly when every iteration is clean and the number of passes is already
  there (`SnapshotVerdictIff`).
- The data pattern tells two offsets apart only modulo 256 (`OffsetsToldApartModulo256`).
- The 32-bit checksum accumulator is safe for exactly 131072 bytes (`NoWrapIff`).
- Only the low eight bits of `tgt_data` reach the upper half of the user data
  (`TargetDataKeptModulo256`).
- The reason in an error line is shown correctly exactly when no carriage return follows the line;
  counts and verdict do not depend on it (`ErrorRoundTripIff`, `CountsRoundTrip`).

The usage text of `ndt.sh` (lines 45-46) speaks of `pass == K and fail == 0`; the code also asks for
`skip == 0`, and the model follows the code.

## Model

| member | source | states |
|---|---|---|
| UserData.DecodeBuild | initramfs/rootfs/opt/blktests/src/miniublk.c:147-168 | for every tag below 2^16, operation below 2^8, target data below 2^16 and target bit, the three decoders return the tag, operation and bit that were packed |
| UserData.TargetDataKeptModulo256 | initramfs/rootfs/opt/blktests/src/miniublk.c:152-158 | two target data values give the same user data exactly when they agree modulo 256 |
| UblkSteps.CompleteIoEffect | initramfs/rootfs/opt/blktests/src/miniublk.c:202-206 | with a free slot and no flag set, marking a request done and issuing it appends exactly one COMMIT_AND_FETCH for that tag with that result, counts it and clears the flags |
| UblkSteps.HandleEffect | initramfs/rootfs/opt/blktests/src/miniublk.c:739-782 | a handled completion changes one tag, appends at most one entry (the commit or the file operation of that very request), moves one unit between the counters, and sets STOPPING on an abort |
| UblkSteps.FullRingKeepsResult | initramfs/rootfs/opt/blktests/src/miniublk.c:1331-1333 | with no slot left, a request of the loop target keeps -ENOMEM as its result and waits to be committed; nothing else changes |
| UblkSteps.StopClearsFetch | initramfs/rootfs/opt/blktests/src/miniublk.c:763-766 | a command handled while stopping, or an abort, stops the queue and takes NEED_FETCH off the tag |
| UblkSteps.StepInv | initramfs/rootfs/opt/blktests/src/miniublk.c:609-833 | every enabled step of server, driver, target file or ring keeps the invariant |
| UblkSteps.RunInv | initramfs/rootfs/opt/blktests/src/miniublk.c:835-858 | the invariant holds after every run of any length |
| UblkTheorems.OneTokenPerTag | initramfs/rootfs/opt/blktests/src/miniublk.c:609-682 | after the fetch loop each tag has exactly one thing in flight and flags 0, or is dead with flags IO_FREE; the counters equal the numbers in flight and sum with the dead tags to the depth |
| UblkTheorems.RingsNeverOverflow | initramfs/rootfs/opt/blktests/src/miniublk.c:631-636 | in every reachable state the rings stay within the depth, counting slots handled but not yet given back, and wherever a submission entry is asked for one is free and gets used |
| UblkTheorems.WordOfEveryTag | initramfs/rootfs/opt/blktests/src/miniublk.c:617-656 | over every run the events of a tag are FETCH, then rounds of delivery, optional target I/O and commit, with at most one refusal, at the end |
| UblkTheorems.NoRequestLost | initramfs/rootfs/opt/blktests/src/miniublk.c:774-776 | a request that was delivered and is not committed is in flight exactly once |
| UblkWords.CommitCarriesOwnResult | initramfs/rootfs/opt/blktests/src/miniublk.c:1317-1371 | each commit directly answers the request delivered before it: with 512 bytes a sector for null; for loop with the result of a file operation that has the operation of that request, 512 times its start sector as offset and 512 times its sectors as length, cut to the widths of the fields |
| UblkWords.DeliveryIsCommitted | initramfs/rootfs/opt/blktests/src/miniublk.c:1373-1391 | each delivered request is followed by its commit unless the word ends while it is outstanding |
| UblkWords.WordCounts | initramfs/rootfs/opt/blktests/src/miniublk.c:676-682 | FETCH is issued once, and commits equal deliveries but for the one outstanding |
| UblkTheorems.SafeExit | initramfs/rootfs/opt/blktests/src/miniublk.c:684-692 | when the thread leaves, no target I/O is prepared, running or unreaped, nothing is left unsubmitted, and each delivery is committed or was never reaped |
| UblkTheorems.StoppingStays | initramfs/rootfs/opt/blktests/src/miniublk.c:763-766 | STOPPING, once set, is set after every continuation |
| UblkIdle.IdleIsSafe | initramfs/rootfs/opt/blktests/src/miniublk.c:694-722 | no page is discarded, and while STOPPING is clear no unbounded wait starts, while an entry is prepared or a target I/O is anywhere |
| UblkIdle.UnboundedWaitIsQuietIff | initramfs/rootfs/opt/blktests/src/miniublk.c:802-815 | an unbounded wait starts with nothing prepared and no target I/O exactly when STOPPING is clear |
| UblkIdle.UnboundedWaitWhileStopping | initramfs/rootfs/opt/blktests/src/miniublk.c:826-831 | a run in which a request and an abort are reaped together, so that the next wait is unbounded with a target I/O prepared |
| UblkIdle.DiscardMeetsDeliveryIff | initramfs/rootfs/opt/blktests/src/miniublk.c:694-704 | when pages are discarded, a tag has an unanswered request exactly if that request waits in the completion ring, and some tag has one exactly if the ring holds an OK result |
| UblkIdle.DiscardCanMeetDelivery | initramfs/rootfs/opt/blktests/src/miniublk.c:826-831 | a run in which pages are discarded although a delivered request waits in the completion ring |
| UblkDrain.DrainBound | initramfs/rootfs/opt/blktests/src/miniublk.c:684-692 | while the driver refuses every command, each handled completion takes exactly one off a rank of at most three per tag, and rank zero means the queue is done |
| UblkDrain.DrainProgresses | initramfs/rootfs/opt/blktests/src/miniublk.c:799-820 | a pass that starts before the drain is over can always get to one more completion |
| UblkDrain.DrainToExit | initramfs/rootfs/opt/blktests/src/miniublk.c:835-858 | from every state in which the queue is stopping there is a refusing run that ends with the thread gone and handles no more completions than the rank says |
| UblkUnsupported.RingSoundIffSupported | initramfs/rootfs/opt/blktests/src/miniublk.c:1326-1363 | over every run, whatever the driver sends, all entries stay prepared exactly when every request the loop target handles is READ, WRITE or FLUSH |
| UblkUnsupported.RejectedRequestAnsweredIffSlot | initramfs/rootfs/opt/blktests/src/miniublk.c:1373-1381 | on any queue, the first rejected request of a run gets its error committed if a second slot is free, and otherwise no continuation ever issues anything for that tag |
| UblkUnsupported.AbandonedForever | initramfs/rootfs/opt/blktests/src/miniublk.c:617-624 | a tag marked for a commit with nothing in flight gets no commit and no request in any continuation |
| UblkUnsupported.DiscardIsLost | initramfs/rootfs/opt/blktests/src/miniublk.c:1343-1345 | a run of a one-tag queue whose first request is rejected, after which nothing is issued for it however the run goes on |
| UblkQueue.Queue.constructor | initramfs/rootfs/opt/blktests/src/miniublk.c:513-563 | a new queue is in the initial state of the state machine |
| UblkQueue.Queue.QueueIoCmd | initramfs/rootfs/opt/blktests/src/miniublk.c:609-664 | the in-place handler does what the handler function says; it takes an entry, a COMMIT_AND_FETCH or a FETCH, exactly for a free tag with a NEED flag and a slot, and its return value tells the cases apart |
| UblkQueue.Queue.CompleteIo | initramfs/rootfs/opt/blktests/src/miniublk.c:666-674 | likewise for completing a request |
| UblkQueue.Queue.LoopQueueTgtIo | initramfs/rootfs/opt/blktests/src/miniublk.c:1326-1371 | the entry it appends, with operation, byte offset and length of the request, its errno in every rejecting branch, and the target counter |
| UblkQueue.Queue.QueueIo | initramfs/rootfs/opt/blktests/src/miniublk.c:1317-1381 | both targets' queue_io agree with the handler function |
| UblkQueue.Queue.LoopIoDone | initramfs/rootfs/opt/blktests/src/miniublk.c:1383-1391 | completing after a target I/O agrees with the handler function |
| UblkQueue.Queue.HandleCqe | initramfs/rootfs/opt/blktests/src/miniublk.c:739-782 | handling a raw completion, decoded from its 64 bits, agrees with the handler function |
| UblkQueue.Queue.SubmitFetchCommands | initramfs/rootfs/opt/blktests/src/miniublk.c:676-682 | the fetch loop is a legal run of one FETCH step per tag |
| UblkQueue.Queue.ReapEvents | initramfs/rootfs/opt/blktests/src/miniublk.c:784-797 | the reap loop ends, with completions arriving meanwhile; its run is the one that the arrivals and the number of slots it returns determine |
| UblkQueue.Queue.UpdateIdle | initramfs/rootfs/opt/blktests/src/miniublk.c:826-831 | without STOPPING, IDLE holds afterwards exactly if the wait timed out, nothing was reaped and the queue is idle |
| UblkQueue.Queue.ProcessIo | initramfs/rootfs/opt/blktests/src/miniublk.c:799-833 | it ends the thread exactly when STOPPING is set, nothing is prepared and no target I/O is out; otherwise its run is determined by what the kernel does and the slots reaped, and IDLE is kept while stopping and else set exactly if a bounded wait timed out, nothing was reaped, and nothing is prepared or out |
| UblkPasses.PassCounts | initramfs/rootfs/opt/blktests/src/miniublk.c:802-832 | the run of a pass enters one wait, first, handles the reaped slots, and ends with the idle update |
| UblkQueue.IoHandler | initramfs/rootfs/opt/blktests/src/miniublk.c:835-862 | whatever the kernel does, the thread makes all passes in order unless one finds the queue done; its run is legal from the initial state, so every theorem above holds of the object, and is the one the passes determine, with one wait for each |
| DescriptorWindows.RoundUpIsLeastMultiple | initramfs/rootfs/opt/blktests/src/miniublk.c:128-129 | for a power of two, round_up gives the least multiple that is not below its argument |
| DescriptorWindows.WindowsDisjoint | initramfs/rootfs/opt/blktests/src/miniublk.c:475-531 | for pages of up to 2^29 bytes, windows of different queues are page-aligned and disjoint and hold every descriptor that a tag can address |
| DescriptorWindows.WindowsSpaced | initramfs/rootfs/opt/blktests/src/miniublk.c:483-529 | queue 0 maps at the base offset, and windows follow at the distance of the least number of pages that holds 4096 descriptors of 24 bytes |
| DescriptorWindows.WindowSize | initramfs/rootfs/opt/blktests/src/miniublk.c:475-491 | a window has the least number of whole pages that holds the descriptors of its queue |
| DescriptorWindows.ProductFitsIff | initramfs/rootfs/opt/blktests/src/miniublk.c:529 | the product of queue number and window size fits in an int for all queues exactly up to that page size |
| LoopTarget.Ilog2IsFloorLog | initramfs/rootfs/opt/blktests/src/miniublk.c:142-145 | ilog2 is the floor of the binary logarithm of a positive 32-bit number, and the only such number |
| LoopTarget.CreateStores | initramfs/rootfs/opt/blktests/src/miniublk.c:1450-1480 | the stored shifts bracket the block sizes of a block device, or the preferred size of a regular file, or 512 and 4096 without O_DIRECT and for other files; the stored sectors are the whole ones |
| LoopTarget.RecoversIff | initramfs/rootfs/opt/blktests/src/miniublk.c:1528-1568 | recovery accepts stored parameters exactly if, with O_DIRECT, the shifts bracket the block sizes it finds, and the sectors make up the size |
| LoopTarget.RecoveryAgreesIffWholeSectors | initramfs/rootfs/opt/blktests/src/miniublk.c:1450-1480 | recovery of an unchanged file is accepted exactly when its size is a multiple of 512 |
| LoopTarget.RecoveryOfAnotherFile | initramfs/rootfs/opt/blktests/src/miniublk.c:1528-1568 | for any two files and O_DIRECT outcomes, when recovery is accepted, in terms of sizes and block-size brackets |
| TagBytes.SwapStoresBigEndian | initramfs/rootfs/opt/blktests/src/metadata.c:144-150 | storing a swapped tag puts its big-endian bytes in memory, and swapping twice is the identity |
| TagBytes.SwapLoadChecks | initramfs/rootfs/opt/blktests/src/metadata.c:235 | the 32-bit comparison holds exactly for the big-endian bytes of the tag |
| TagBytes.Get48Checks | initramfs/rootfs/opt/blktests/src/metadata.c:152-176 | the 48-bit comparison holds exactly for what the 48-bit store writes |
| Metadata.PutTuple | initramfs/rootfs/opt/blktests/src/metadata.c:190-204 | the tuple store sets the reference-tag bytes and leaves every other byte |
| Metadata.ChecksOutIffHolds | initramfs/rootfs/opt/blktests/src/metadata.c:178-270 | a buffer checks out exactly if in every interval k the head counts up from ref + 2k, the tail is the complement of such counting, and the tag in the tuple is ref + k, most significant byte first and padded to 48 bits in the long tuple |
| Metadata.InitMetadata | initramfs/rootfs/opt/blktests/src/metadata.c:178-212 | the loops leave a buffer with that content, untouched in the guard and application tags and behind the last interval, and walk exactly intervals times size bytes, in all layouts |
| Metadata.CheckMetadata | initramfs/rootfs/opt/blktests/src/metadata.c:214-270 | the checker returns 0 exactly for buffers with that content, and -1 otherwise |
| Metadata.ChecksOutIffKept | initramfs/rootfs/opt/blktests/src/metadata.c:214-270 | a buffer checks out exactly when writing would leave it unchanged |
| Metadata.ChecksOutIffAgrees | initramfs/rootfs/opt/blktests/src/metadata.c:178-270 | a buffer checks out exactly when it agrees with what the writer makes of any other buffer, on every byte but the skipped tag bytes |
| Metadata.WrittenChecksOut | initramfs/rootfs/opt/blktests/src/metadata.c:178-212 | what was written checks out |
| DataPattern.InitData | initramfs/rootfs/opt/blktests/src/metadata.c:272-279 | the loop leaves the pattern of that offset in the buffer |
| DataPattern.CheckData | initramfs/rootfs/opt/blktests/src/metadata.c:281-291 | the checker returns 0 exactly for a buffer that holds the pattern of that offset |
| DataPattern.OffsetsToldApartModulo256 | initramfs/rootfs/opt/blktests/src/metadata.c:272-291 | data written for one offset passes the check for another exactly when they agree modulo 256 |
| Metadata.WrittenBehind | initramfs/rootfs/opt/blktests/src/metadata.c:210 | bytes behind the last interval are not touched |
| InternetChecksum.CsumInet.Update | initramfs/rootfs/opt/blktests/src/sg/syzkaller1.c:171-186 | up to 131072 bytes from a folded accumulator never wrap in 32 bits, the folding ends, and the accumulator is the folded sum |
| InternetChecksum.UpdatedCongruent | initramfs/rootfs/opt/blktests/src/sg/syzkaller1.c:184-185 | the accumulator ends at most 0xffff, congruent to the word sum modulo 0xffff, and zero only for a zero sum |
| InternetChecksum.UpdateInPieces | initramfs/rootfs/opt/blktests/src/sg/syzkaller1.c:171-186 | updating with a piece of even length and then another is updating with both at once |
| InternetChecksum.OddIsZeroPadded | initramfs/rootfs/opt/blktests/src/sg/syzkaller1.c:181-182 | odd data counts as padded with a zero byte |
| InternetChecksum.DigestChecksOut | initramfs/rootfs/opt/blktests/src/sg/syzkaller1.c:188-191 | data with its digest behind it has digest zero |
| InternetChecksum.ReceiveWithDigest | initramfs/rootfs/opt/blktests/src/sg/syzkaller1.c:166-191 | an object updated with data of even length and then with the digest of that has digest zero |
| InternetChecksum.NoWrapIff | initramfs/rootfs/opt/blktests/src/sg/syzkaller1.c:178-182 | the sum fits in 32 bits for all data of a length exactly up to 131072 bytes |
| IoVec.Vector.Append | initramfs/rootfs/opt/blktests/src/discontiguous-io.cpp:46-51 | one segment is added at the end |
| IoVec.Vector.DataLen | initramfs/rootfs/opt/blktests/src/discontiguous-io.cpp:55-60 | the loop sums the lengths |
| IoVec.Vector.Trunc | initramfs/rootfs/opt/blktests/src/discontiguous-io.cpp:61-73 | the in-place cut is the truncated list, and the assertion in the code cannot fire |
| IoVec.Vector.Write | initramfs/rootfs/opt/blktests/src/discontiguous-io.cpp:74-78 | the bytes written are those of the segments in order |
| IoVec.OutputAt | initramfs/rootfs/opt/blktests/src/discontiguous-io.cpp:74-78 | byte k of segment i is written from that segment's base plus k, behind the bytes of the segments before it |
| IoVec.TruncKeepsPrefix | initramfs/rootfs/opt/blktests/src/discontiguous-io.cpp:61-73 | after trunc the length is the smaller of the two and the output is the prefix of that length |
| IoVec.TruncatedShape | initramfs/rootfs/opt/blktests/src/discontiguous-io.cpp:61-73 | the list is kept up to the first segment in which the length is reached, that one is shortened in its place, and a list that is too short stays |
| IoVec.BuildScattered | initramfs/rootfs/opt/blktests/src/discontiguous-io.cpp:290-295 | the loop in main builds the scattered list |
| IoVec.ScatteredLayout | initramfs/rootfs/opt/blktests/src/discontiguous-io.cpp:290-298 | the scattered segments are disjoint 4-byte pieces inside the doubled buffer, each behind four free bytes, and total 4 * (len / 4) |
| DioOffsets.InitArgsAccepts | initramfs/rootfs/opt/blktests/src/dio-offsets.c:46-85 | parameters that pass the checks have a dividing dma alignment and whole-block transfers within the limits |
| DioOffsets.InitArgsExact | initramfs/rootfs/opt/blktests/src/dio-offsets.c:46-82 | exactly which arguments are accepted, and the limits that result |
| DioOffsets.ComputedSizeValue | initramfs/rootfs/opt/blktests/src/dio-offsets.c:87-106 | the buffer size before the device is asked, as a rounded maximum |
| DioOffsets.TestDmaAlignedVectors | initramfs/rootfs/opt/blktests/src/dio-offsets.c:227-259 | the loop lays out four equally spaced vectors from the dma alignment on |
| DioOffsets.TestUnalignedPageVectors | initramfs/rootfs/opt/blktests/src/dio-offsets.c:269-341 | head, middle vectors and shortened tail at multiples of eight whole vectors |
| DioOffsets.TestInvalidMiddleAddr | initramfs/rootfs/opt/blktests/src/dio-offsets.c:419-449 | the loop around the NULL vector lays out 513 and 510 equally spaced blocks |
| DioOffsets.TestMaxVectorLimits | initramfs/rootfs/opt/blktests/src/dio-offsets.c:555-603 | vectors of the computed size, and the half blocks compared at their offsets |
| DioOffsets.RunTests | initramfs/rootfs/opt/blktests/src/dio-offsets.c:145-716 | the tests together lay out the listed ranges, which lie inside the buffers exactly when a transfer has a block and the buffers hold twelve and a half transfers and 2047 blocks |
| DioOffsets.AllInsideIff | initramfs/rootfs/opt/blktests/src/dio-offsets.c:145-699 | the same of the listed ranges, for all accepted parameters |
| DioOffsets.InsideIffEnoughSegments | initramfs/rootfs/opt/blktests/src/dio-offsets.c:46-108 | from the caller's arguments: every range lies inside exactly when a transfer has a block, the device holds what is needed, and there are 25 segments or twelve and a half transfers fit in 4096 blocks |
| DioOffsets.EmptyTransferOnlyWithoutSegments | initramfs/rootfs/opt/blktests/src/dio-offsets.c:93-95 | a transfer below a block passes the check of the buffer size only with no segment |
| ZgrepQuoting.EscapeBySedValue | initramfs/rootfs/usr/bin/zgrep:46-51 | the detour through printf, sed and command substitution escapes every quote and keeps newlines, trailing ones included |
| ZgrepQuoting.AccumulateOperands | initramfs/rootfs/usr/bin/zgrep:99-109 | the accumulated string splits back into exactly the operands, in order, before whatever words follow |
| ZgrepQuoting.ReadAll | initramfs/rootfs/usr/bin/zgrep:184 | quoting a list and tokenizing by the shell's quoting rules is the identity |
| ZgrepQuoting.ReadOperand | initramfs/rootfs/usr/bin/zgrep:187-192 | an operand, or the pattern, reads back as one word |
| ZgrepQuoting.AccumulateArgs | initramfs/rootfs/usr/bin/zgrep:174-181 | the accumulated string, before any words that follow, reads back as options and arguments exactly when all options are safe |
| ZgrepQuoting.OptionsReadBackIff | initramfs/rootfs/usr/bin/zgrep:174-181 | the same for every list and every well-formed rest: safe options have no quote, or one before the last character |
| ZgrepQuoting.CommandLineIff | initramfs/rootfs/usr/bin/zgrep:186-192 | the whole grep command line with its pattern reads back exactly under that condition |
| ZgrepQuoting.UnsafeOptionsCanBalance | initramfs/rootfs/usr/bin/zgrep:175-179 | two unsafe options are read as one word that is neither of them |
| ZgrepQuoting.ExitStatus | initramfs/rootfs/usr/bin/zgrep:209-272 | the result is 0 or 1 exactly if no file looked at had a grep error or a gzip status other than 0, 2 and 141, then 0 exactly if some grep found a line; otherwise it is the greatest status, warnings apart and gzip's 1 as 2; a status of 126 or more ends the loop |
| Batching.RunGroups | initramfs/rootfs/opt/blktests/check:1065-1090 | the runs concatenate to the input, each is of one group, neighbours differ, and the result is 1 exactly if a run failed |
| Batching.GroupIsBeforeLastSlash | initramfs/rootfs/opt/blktests/check:1069 | the group of a name is what stands before its last slash, or the name if there is none |
| Batching.GroupContiguous | initramfs/rootfs/opt/blktests/check:1069-1070 | in bytewise order a name between two names of a group is of that group |
| Batching.EachGroupOnce | initramfs/rootfs/opt/blktests/check:1068-1082 | on a sorted list of names group/NNN no two runs are of the same group |
| PatientRemoval.AwaitZero | initramfs/rootfs/opt/blktests/check:620-631 | a zero reference count is noticed at the first second it is there, with a try left over |
| PatientRemoval.PatientRmmod | initramfs/rootfs/opt/blktests/check:585-664 | both loops together wait at most the budget, and the status is that of the last attempt, if any; with a modprobe that waits, its status, or 1 if references remain |
| PatientRemoval.OutcomeUnique | initramfs/rootfs/opt/blktests/check:620-664 | the answers of the system determine status and time spent |
| PatientRemoval.SuccessIff | initramfs/rootfs/opt/blktests/check:649-664 | in terms of the system's answers, the status is 0 exactly when an attempt succeeds after failing ones, or the module is gone by the first one |
| PatientRemoval.VanishedReportedAsFailure | initramfs/rootfs/opt/blktests/check:649-664 | a module that vanishes after failing attempts gives the status of the last of them |
| Sentinel.Aggregate | initramfs/rootfs/init:137-149 | the flags say whether some directory passed, some failed and some was skipped |
| Sentinel.Iterate | initramfs/rootfs/init:131-161 | each iteration is counted once; pass counts the clean ones, fail those with a failure |
| Sentinel.ParseCounts | ndt.sh:373-379 | the loop over the words assigns the last value of each key |
| Sentinel.CountsRoundTrip | ndt.sh:365-379 | for all counts the host reads back what the guest printed, with or without a carriage return |
| Sentinel.CountsDecide | ndt.sh:380-386 | for any printed counts the verdict is PASS exactly if the passes are the iterations asked for and no failure and no skip was counted |
| Sentinel.VerdictIsExact | ndt.sh:380-386 | the verdict on the result line is PASS exactly when every iteration had a passing result and no failing one |
| Sentinel.ResultLineDecidesIff | ndt.sh:316-317 | the guest's line is the one picked from the console exactly when no earlier line has the prefix, or the first that has it is the same |
| Sentinel.ConsoleVerdictIsExact | ndt.sh:315-387 | over a whole console with no earlier line of that prefix, the verdict is PASS exactly when every iteration had a passing result and no failing one |
| Sentinel.SnapshotVerdictIff | ndt.sh:315-387 | on a console read while the result line is being written, the verdict is PASS exactly when every iteration was clean and the number of passes is already there |
| Sentinel.ErrorRoundTripIff | ndt.sh:368-371 | an error line is never a pass, and its reason comes through exactly without a carriage return |

## Left out

- The io_uring, ioctl, mmap, pthread and control-device calls of `miniublk.c`, its command line, and `list` and `del`: the kernel side is the set of nondeterministic steps described above.
- `ublk_find_tgt` on an unknown name: its loop condition is a constant, so it has no bound to prove.
- The buffer addresses in commands and descriptors: entries carry tags, operations, lengths, offsets and results only.
- UblkUnsupported.RejectedRequestAnsweredIffSlot: stale entries never complete in the model, because their contents depend on what the slot held before.
- `cq` overflow handling of the kernel: the bound proved here means it is never needed.
- The null target's recovery and the status written by `_call_test`: they would only add easy members.
- PatientRemoval.PatientRmmod: budgets are not negative; the loop of the script counts down to exactly zero.
- The submission code in `main` of `metadata.c`, and what the kernel is expected to accept or reject in `dio-offsets.c`: they are about the kernel.
- 64-bit wrap-around of the caller's limits in `dio-offsets.c` and of sums of segment lengths in `discontiguous-io.cpp`: both are bounded by memory and disk sizes.
- The SG_IO calls and the fill loop from standard input in `discontiguous-io.cpp`.
- Everything in `syzkaller1.c` but the checksum.
- zgrep's option parsing (splitting of clustered options, option arguments, pattern files) and its pipelines; the characters of the shell grammar outside quotes are refused by the tokenizer rather than interpreted.
- Metadata.CheckMetadata: asks the same of its layout and tags as the writer.
- Metadata.InitMetadata: asks that the layout fits its interval and that no tag computation overflows `int`, which the program does not check.
- IoVec.BuildScattered: lengths up to 2^30, because the program computes addresses in `int`.
- Sentinel.VerdictIsExact: iteration counts are written without leading zeros, as the shell would read others in base eight; KUnit mode is not modelled.
- Locale-dependent sorting of test names: the order is bytewise.
- Console texts that grep takes for binary, and other console files than one that only grows.
- zgrep options whose argument is the quoted name of a temporary file.
- QEMU boot, timeouts and cleanup in `ndt.sh`, mounts and module loading in `init`, test discovery in `check`, and the other small tools, configurations, patches and rules.
