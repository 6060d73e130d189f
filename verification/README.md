# Verification of the link, memory, blit and scaler drivers

A Dafny model of the drivers' stateful protocols, and proofs about it. `dafny verify dfyconfig.toml` checks all of it.

The AR8030 link (`modules/artosyn_sdio.c`) is modelled byte for byte. `IpHeader` has the header compression and its
inverse, `BlockRuns` the trailer walk, `RxStream` and `RxLink` the incremental parser and the receive path, `TxPass`,
`TxLink` and `TxSchedule` the transmit passes under credit grants, the acknowledgement window and every interleaving
of interrupts, worker passes, enqueues and closes. `TxWindow` says what the unacknowledged count is over every run and
when data is sent, `TxLoss` which packets such a run loses, `TxCommands` which command messages, and `LinkReports`
what one read does besides the tunnel. `LinkEndToEnd` puts them together: what is packed at one end comes out at the
other, however the bytes were regrouped on the way. `LinkReopen` has the receiving interface go down and up in
between. `RomLoader` is the firmware framer and `DeviceLifetime` the race between file operations and removal.

The media memory is modelled in two layers: `MmzZone`, the aligned first-fit allocator, and `VbPools`, the bitmap
pools over it; `MmzMaps` is the registry that keeps mapped blocks alive, and `MmzLedger` tells what becomes of each
block. `BufCache` is the dma-buf mapping cache, `BatchPin` and `Blitter` its two clients. `EngineSlots` and
`ScalerIrq` are interrupt protocols stepped against adversarial handlers and hardware. `Cm2Ladder` is the clamp-ladder
arithmetic of the ISP script.

Code that works step by step is a class whose methods are proved against a function of the old state; what the code
promises is proved about that function. Concurrent protocols are step relations, one step for one atomic access,
critical section or wait; a run is a sequence of enabled steps from the initial state, with no bound on its length or
on the number of threads, files, packets or transfers. What memory allocation, firmware, the engine, the interrupt
core and other users of a zone answer are parameters of the steps.

Some properties the code or its comments suggest do not hold as they stand. Each is stated with the exact condition
under which it does, which names the inputs that break it or comes with one: chunking with stray markers, a frame
parked when the interface goes down, the frame error counter, more than 64 merged runs, grants above the staging
buffer, tiny firmware segments above 488 bytes, mappings of unallocated memory, the unmap ioctl's second delete, a
scaler reset that does not stop the engine, bounds either side of zero, gaps of the gain axis wider than the weight's
resolution, and the float conversion's clamp.

## Model

| member | source | states |
|---|---|---|
| LinkEndToEnd.EndToEnd | modules/artosyn_sdio.c:1071-1198 | for every run of any grants, ACKs, throttling, worker passes and closes, every offered packet being well formed or unsupported, and every regrouping of the tunnel bytes into transfers and reads of up to 64 transfers: packed then queued packets are the accepted ones with some left out, none exactly when the run is loss free; a peer with the same prefix hands up the packed packets in order, each equal to the original but for TOS 0, TTL 64 and a checksum that verifies; once it has read everything it has handed up all of them and nothing is parked |
| LinkEndToEnd.WellFormedFits | modules/artosyn_sdio.c:1127-1133 | nine blocks carry every well-formed packet, and eight, the 4096-byte grant, carry it exactly up to 4100 bytes, which covers the 4096-byte MTU |
| LinkEndToEnd.TunnelDelivers | modules/artosyn_sdio.c:727-831 | any prefix of the tunnel bytes of well-formed packets, cut anywhere and interleaved with commands and ACKs, delivers exactly the first packets in order; all of it delivers all and leaves no carry |
| LinkEndToEnd.ReceiveFeeds | modules/artosyn_sdio.c:924-983 | a read that merges up to 64 transfers feeds the tunnel parser exactly their IP payloads, in stream order |
| LinkEndToEnd.ReceiveAllFeeds | modules/artosyn_sdio.c:727-831 | over any sequence of reads the receiver's carry and deliveries are those of feeding the tunnel payloads one after another |
| LinkReopen.ReopenInOrderIff | modules/artosyn_sdio.c:973-977 | with the interface going down and up between reads any number of times: every read it is up for does to the parser what it does to one that missed nothing if and only if, each time it comes up, the part of a frame heard last is the part that arrived last; then exactly the packets whose end it was up for have been handed up, in order; losing whole frames only is enough |
| LinkReopen.ResumesIffSamePart | modules/artosyn_sdio.c:727-831 | a receiver that heard the tunnel stream up to one offset and resumes at another gives the frames, parked bytes and skipped count of one that missed nothing, for any transfers that follow, if and only if the part of a frame before the one offset is the part before the other |
| LinkReopen.MissedByteSplices | modules/artosyn_sdio.c:1435-1462 | a concrete loss: with the last byte of a frame missed while down, the frame is completed with the next frame's marker and handed up |
| IpHeader.BuildIpHead | modules/artosyn_sdio.c:584-597 | the in-place shuffle leaves, eight bytes in, the 12-byte header (marker, protocol, checksum, total length, id, fragment, last octets) and the unchanged body |
| IpHeader.RestoreIpHead | modules/artosyn_sdio.c:605-637 | the in-place rebuild yields the 20-byte header with TOS 0, TTL 64, both addresses under the prefix and the recomputed checksum, then the body |
| IpHeader.ComputedChecksumVerifies | modules/artosyn_sdio.c:633-636 | a checksum computed over a header with a zero checksum field makes the header verify (section 1 of RFC 1071) |
| IpHeader.CompressRestore | modules/artosyn_sdio.c:584-637 | restore after compress is the identity on all bytes but TOS, TTL and checksum, and the checksum verifies |
| IpHeader.RestoreKeepsOnlyTheLastOctet | modules/artosyn_sdio.c:605-637 | the round trip succeeds if and only if both addresses of the packet are under the link prefix |
| RxStream.StreamDelivered | modules/artosyn_sdio.c:727-831 | for any stream of plausible frames with marker-free gaps and any cut into transfers, empty ones and cuts inside headers included: exactly the frames wholly received are emitted, emitted bytes then parked bytes are all frame bytes received, and the two carries are never both non-empty |
| RxStream.ChunkingInvariance | modules/artosyn_sdio.c:727-831 | a run of transfers in which no dropped header's tail, judged with everything still to come, could hold a frame start parses as if it had arrived in one transfer: frames, carry and skipped count |
| RxStream.SameStartsIffClean | modules/artosyn_sdio.c:727-831 | for arbitrary bytes, cuts and carry: the run of transfers accepts frame starts, completed or finally parked, at exactly the offsets of the uncut parse if and only if no dropped header's tail, judged with everything still to come, could hold a frame start |
| RxStream.SplitHeaderExact | modules/artosyn_sdio.c:744-772 | dropping an implausible split header whole finds the same frame starts as the uncut parse if and only if the eleven dropped tail bytes hide no candidate |
| RxStream.StrayMarkerCutLosesFrame | modules/artosyn_sdio.c:744-772 | a concrete bad cut: a stray 0x45 byte before a frame, cut between the two, loses the frame the uncut parse finds |
| RxStream.ScanAppend | modules/artosyn_sdio.c:779-823 | what the main loop parks after some bytes stands for everything of them still unparsed |
| RxStream.FeedIsScan | modules/artosyn_sdio.c:744-823 | unless it drops a header whose tail could hold a frame start, a transfer resumed from either carry equals the uncut parse of parked bytes followed by the transfer |
| RxStream.StreamCutsAreClean | modules/artosyn_sdio.c:744-772 | whatever the cuts, a stream of plausible frames with marker-free gaps drops no header with a frame start in its tail |
| RxStream.ParkedHeaderIsFrameStart | modules/artosyn_sdio.c:790-797 | a header parked while reading such a stream is the beginning of one of its frames |
| RxStream.EveryByteAccounted | modules/artosyn_sdio.c:727-831 | for arbitrary bytes, every byte of a transfer and its carry is delivered, parked or counted as skipped |
| RxStream.CounterMovesIff | modules/artosyn_sdio.c:825-831 | for a stream of plausible frames with marker-free gaps, whatever transfers came before: a transfer moves rx_frame_errors if and only if it holds a gap byte and does not end inside a frame |
| RxStream.SilentDesync | modules/artosyn_sdio.c:790-797 | a transfer that loses a byte and parks the next without the counter moving, against the comment that a desync is never silent |
| RxStream.DeliveredFramesAreWhole | modules/artosyn_sdio.c:744-823 | for arbitrary bytes over any parked header or frame, whatever is emitted starts with 0x45, a protocol of 1, 2, 6 or 17 and a total length of 21 to 4352, and is eight bytes shorter than that length |
| BlockRuns.WalkInvertsEncoding | modules/artosyn_sdio.c:924-961 | the backward walk over merged runs returns exactly their starts, sizes, payload lengths and types in stream order if and only if there are at most 64; with more the read falls back to one legacy run |
| BlockRuns.PiecesOfRead | modules/artosyn_sdio.c:924-965 | every dispatched slice of such a read is the payload that was packed |
| BlockRuns.RunsTileTheRead | modules/artosyn_sdio.c:924-961 | for arbitrary bytes the runs tile the read and each payload plus trailer stays inside its run |
| BlockRuns.WalkTrailers | modules/artosyn_sdio.c:925-944 | the trailer loop finds the runs of the specification, back to front, at most 64 |
| BlockRuns.RecoverRuns | modules/artosyn_sdio.c:920-954 | run recovery with the legacy fallback: the runs are the specified ones and tile the read |
| BlockRuns.LegacyReadsLastTrailer | modules/artosyn_sdio.c:945-954 | the fallback run is the whole read under the type and payload length of the last transfer packed into it |
| BlockRuns.WalkOfImages | modules/artosyn_sdio.c:928-944 | from the end of any image the walk collects the last runs before it, as many as the table still takes |
| RxLink.Receiver.Recv | modules/artosyn_sdio.c:879-1042 | one read changes carry, deliveries, error count, command queue and window exactly as dispatching its runs in stream order does |
| RxLink.Receiver.IpStream | modules/artosyn_sdio.c:727-831 | the three-legged parser computes the specified carry, deliveries and error tick |
| RxLink.Receiver.ResumeHeader | modules/artosyn_sdio.c:744-766 | completing a parked header: still incomplete, opened as a frame, or dropped |
| RxLink.Receiver.ResumeBody | modules/artosyn_sdio.c:768-777 | completing a parked frame, which is handed up when its last byte arrives |
| RxLink.Receiver.ScanRest | modules/artosyn_sdio.c:779-823 | the main loop emits, skips and parks as the specification does |
| RxLink.Receiver.DispatchRun | modules/artosyn_sdio.c:963-1035 | one run by its type: tunnel bytes only when the interface is up, commands under the cap with the oldest dropped, ACK converging the window |
| RxLink.Receiver.FinishIp | modules/artosyn_sdio.c:682-694 | a completed frame is handed up restored |
| RxLink.AckWindow | modules/artosyn_sdio.c:1010-1026 | after an ACK the count is the smaller of what was believed pending and what the chip reports |
| RxLink.Admit | modules/artosyn_sdio.c:984-1008 | after admission the queue has one message more below the cap and exactly the cap otherwise |
| RxLink.NewestAreKept | modules/artosyn_sdio.c:984-1008 | admission keeps the newest messages in the order they arrived, the new one last |
| LinkReports.ReportIsRead | modules/artosyn_sdio.c:1010-1015 | a pending count the chip writes most significant byte first into the four bytes before the trailer is the count the receiver reads |
| LinkReports.ReceiveEffects | modules/artosyn_sdio.c:963-1035 | a read of up to 64 merged transfers takes in exactly the counts, the command messages and the counter ticks of its transfers, in stream order, each in its own place |
| LinkReports.WindowAfterRead | modules/artosyn_sdio.c:1010-1026 | such a read leaves the unacknowledged count at the least of its old value and every count written into its ACK transfers, which is what an interrupt with those reports does to the sender |
| LinkReports.CommandsAfterRead | modules/artosyn_sdio.c:984-1008 | messages admitted one after another leave the old queue followed by all of them, cut to the newest up to the cap |
| LinkReports.CounterOverStream | modules/artosyn_sdio.c:825-831 | over a stream of plausible frames with marker-free gaps, however cut, rx_frame_errors counts the transfers that hold a gap byte and end outside every frame |
| TxLink.Transmitter.Flush | modules/artosyn_sdio.c:1054-1065 | the transfer written is payload, padding and a trailer filling whole blocks, the transfers before it stay as they were, and the log records what it means |
| TxLink.Transmitter.PackData | modules/artosyn_sdio.c:1108-1184 | the bulk loop leaves the specified queue, batch, flushed transfers and in-flight count |
| TxLink.Transmitter.SendData | modules/artosyn_sdio.c:1071-1198 | credit gate, window gate, packing, closing flush, credit and window accounting: the whole new state and the transfers sent |
| TxLink.Transmitter.PackCmd | modules/artosyn_sdio.c:1218-1255 | the command packing loop against the shared packing specification |
| TxLink.Transmitter.SendCmd | modules/artosyn_sdio.c:1204-1281 | the command pass with its empty keepalive: the whole new state and the transfers sent |
| TxLink.Transmitter.Worker | modules/artosyn_sdio.c:1287-1300 | a pass is data, then commands |
| TxLink.Transmitter.Grant | modules/artosyn_sdio.c:1397-1412 | a grant is taken if and only if the previous one was consumed, and resets both accumulators |
| TxLink.Transmitter.StartXmit | modules/artosyn_sdio.c:1464-1494 | a packet is queued if and only if it is IPv4 and the in-flight count is below 1024; otherwise nothing changes |
| TxLink.Transmitter.Drain | modules/artosyn_sdio.c:1453-1458 | closing empties both queues and gives every queued packet's in-flight count back |
| TxPass.PassConsumesOrDrains | modules/artosyn_sdio.c:1287-1300 | a send pass ends with the grant consumed or with both queues empty |
| TxPass.OneTransferPerGrant | modules/artosyn_sdio.c:1108-1191 | with a grant of at most 65536 bytes a pass flushes at most once, the transfer fits the grant, and flushing consumes it, keepalive included |
| TxPass.SingleTransferIffGrantFitsStaging | modules/artosyn_sdio.c:1166-1170 | one grant causes at most one transfer for every queue if and only if it is at most the staging buffer |
| TxPass.WindowOvershoot | modules/artosyn_sdio.c:1100-1106 | one pass pushes the unacknowledged count past the window by at most one staging buffer less its trailer |
| TxPass.CarriableIff | modules/artosyn_sdio.c:1108-1143 | a pass can carry a packet if and only if it is IPv4 without options and its bytes less eight, with a trailer, fit the grant in whole blocks and the staging buffer |
| TxPass.IdlePassSendsNothing | modules/artosyn_sdio.c:1287-1300 | with nothing queued a pass sends nothing and keeps its credit |
| TxPass.HeldBackDataSendsKeepalive | modules/artosyn_sdio.c:1266-1281 | data held back by the window, with no command queued, costs the grant one empty command transfer |
| TxWindow.PassAddsClosing | modules/artosyn_sdio.c:1186-1194 | a pass adds to the 32-bit unacknowledged count exactly the bytes of the transfer that closed its data, and nothing when it sent none; it adds only with the window open |
| TxWindow.SendsIffWindowOpen | modules/artosyn_sdio.c:1100-1106 | a pass with credit whose first queued packet can be carried sends tunnel bytes if and only if the window is off or no more than the window is unacknowledged |
| TxWindow.CountIsItsHistory | modules/artosyn_sdio.c:1186-1194 | over every run from every state the unacknowledged count is what a 32-bit counter makes of the transfers that closed data passes and of the ACKs, in the order they came |
| TxWindow.CountWithoutReport | modules/artosyn_sdio.c:1186-1194 | from any point on, until the next ACK, the count is its value there plus the bytes of the transfers that closed data passes since, modulo 2^32 |
| TxWindow.CountIsTunnelBytes | modules/artosyn_sdio.c:1186-1194 | until the first ACK, under grants of at most 65536 bytes, the count is the tunnel bytes on the wire modulo 2^32, and that very number when the window leaves room below 2^32 |
| TxWindow.NothingSentBeyondWindow | modules/artosyn_sdio.c:1100-1106 | once more than the window has been sent unacknowledged, no step puts tunnel bytes on the wire until an ACK comes |
| TxPass.InflightConserved | modules/artosyn_sdio.c:1108-1184 | a pass keeps the in-flight count equal to the data queue's length on every drop, requeue and consume path |
| TxPass.PackLeavesSuffix | modules/artosyn_sdio.c:1108-1184 | the loop leaves a suffix of the queue, and with nothing packed it has gone through all of it |
| TxPass.PackFitsStaging | modules/artosyn_sdio.c:1166-1170 | every flushed and open batch leaves room for its trailer in the staging buffer |
| TxPass.PackWithinGrant | modules/artosyn_sdio.c:1127-1129 | under a grant the staging buffer can hold nothing is flushed on the way and the batch fits the grant |
| TxPass.PackContents | modules/artosyn_sdio.c:1163-1184 | flushed payloads then the open batch are the packed packets' frames concatenated, in order |
| TxPass.PackKeepsCarriable | modules/artosyn_sdio.c:1108-1184 | every packet is packed or left queued, in order, if and only if each one the loop goes through is supported and fits the grant and the staging buffer by itself |
| TxPass.PackTakesCarriable | modules/artosyn_sdio.c:1108-1184 | of the packets the loop goes through exactly the carriable ones are packed, in order |
| TxPass.PackReaches | modules/artosyn_sdio.c:1127-1143 | how far the loop goes, told from the packets' sizes, the grant and what is already staged |
| TxLoss.NothingLostIff | modules/artosyn_sdio.c:1108-1184 | over every run of any grants, ACKs and closes: packed then queued packets are the accepted ones with some left out, and none is left out if and only if no pass went through a packet its grant cannot carry and no close found one queued |
| TxLoss.RoomyRunsLoseNothing | modules/artosyn_sdio.c:1127-1133 | when every non-zero grant of a run can carry every packet the run offers and the interface is not closed, every accepted packet is on the wire or still queued, in order |
| TxCommands.PassSendsCommands | modules/artosyn_sdio.c:1204-1281 | a pass sends the carriable ones of the command messages it goes through, end to end in order, and leaves the others queued |
| TxCommands.CommandsKeepTheirOrder | modules/artosyn_sdio.c:1204-1281 | over every run the command bytes on the wire are the messages taken, those and then the queue are the messages written with some left out, and none is left out if and only if no pass went through one its grant cannot carry and no close found one queued |
| TxSchedule.NoStrandedGrant | modules/artosyn_sdio.c:1397-1420 | over every interleaving: the read accumulator is 0 or the write accumulator; credit with a non-empty queue implies a pass is coming, outside a close in progress; in-flight equals the data queue's length and is at most 1024; the window overshoots by at most one staging buffer |
| TxSchedule.StepKeepsInv | modules/artosyn_sdio.c:1397-1420 | each interrupt, pass, enqueue, work queueing and close step keeps that invariant |
| TxSchedule.StepAdmits | modules/artosyn_sdio.c:1397-1494 | what a step takes from outside: a grant of so many 512-byte blocks when the last one is consumed, an IPv4 packet while fewer than 1024 are in flight, a command message at the end of its queue, and nothing else |
| TxSchedule.CloseDiscards | modules/artosyn_sdio.c:1435-1462 | a close in any run leaves no worker pass pending once the work is cancelled, no packet queued or in flight after the drain and no command after the purge, and none of it touches wire or credit |
| TxSchedule.WireWithinGrants | modules/artosyn_sdio.c:1127-1191 | over every run with grants of at most 65536 bytes: bytes on the wire plus open credit never exceed bytes granted, and transfers never exceed grants |
| TxSchedule.RunCarries | modules/artosyn_sdio.c:1108-1184 | over every run the tunnel bytes on the wire are the compressed forms of the packed packets, in order, and every transfer is well formed |
| RomLoader.Loader.Send | modules/artosyn_sdio.c:408-459 | the upload writes the specified frames in order and stops exactly at the first failing write |
| RomLoader.Loader.Build | modules/artosyn_sdio.c:442-447 | the scratch buffer holds magic, length field, 64-bit address, payload slice and zero padding |
| RomLoader.Loader.NextCut | modules/artosyn_sdio.c:417-440 | the sizing cascade picks the specified chunk, length field and wire size |
| RomLoader.UploadShape | modules/artosyn_sdio.c:397-406 | closed form: 4096-byte frames, then 512-byte frames, then at most one shorter tail for 500 bytes or more; one zero-tailed frame below that; the bare header for none |
| RomLoader.CutsCarryTheSegment | modules/artosyn_sdio.c:415-456 | the frame payloads concatenate to the segment |
| RomLoader.CutsAreContiguous | modules/artosyn_sdio.c:455-456 | each frame starts where the bytes before it end |
| RomLoader.UploadReadsBack | modules/artosyn_sdio.c:443-447 | parsing frame i gives the magic, its length field, base plus bytes already sent modulo 2^64, its slice of the segment and zeros; no frame exceeds 4096 bytes |
| RomLoader.FramesAreBlockOrByteMode | modules/artosyn_sdio.c:393-395 | every frame is whole 512-byte blocks or shorter than one if and only if the segment is not a tiny one of more than 488 bytes, which the stated rule overlooks |
| DeviceLifetime.NobodyInsideAfterQuiesce | modules/artosyn_sdio.c:1587-1612 | once the quiesce has sampled active_ops at zero, no thread of any number is or ever again becomes inside the driver |
| DeviceLifetime.NobodyInsideTornDown | modules/artosyn_sdio.c:2202-2230 | no operation is inside at any point of the teardown |
| DeviceLifetime.FreedExactlyOnce | modules/artosyn_sdio.c:1575-1579 | the structure is freed at most once, exactly when the probe reference and all open files are gone, and no operation is then in progress |
| DeviceLifetime.NoLostWakeup | modules/artosyn_sdio.c:1593-1611 | while the quiesce waits with active_ops at zero, a completion has been posted or some thread is about to post one |
| DeviceLifetime.EntersIffLive | modules/artosyn_sdio.c:1587-1602 | an operation that has counted itself gets inside if and only if the device is not yet marked removed, and is turned away otherwise |
| DeviceLifetime.WaitSamplesAgain | modules/artosyn_sdio.c:1604-1612 | a waiting quiesce samples again after a completion, which it takes, or a time-out, which needs none, and that sample ends it if and only if no operation holds a count |
| DeviceLifetime.RemovalEnds | modules/artosyn_sdio.c:1604-1612 | a sample ends the quiesce if and only if no operation holds a count, and from there the removal can run to its end, where the last reference frees |
| DeviceLifetime.StepKeepsInv | modules/artosyn_sdio.c:1575-1633 | each atomic access keeps the counts equal to the threads and files they count |
| MmzZone.FirstFitIsExact | modules/ar_osal.c:213-251 | an address is returned if and only if it is the lowest aligned one whose page-rounded extent lies in the zone and misses every block; failure of an acceptable request if and only if there is none |
| MmzZone.AllocationIsExact | modules/ar_osal.c:213-262 | told from the request alone: with the size rounded up to a page and the alignment raised to one, an allocation succeeds if and only if the size is not zero, the alignment is some 2^k up to the zone size and the bytes fit somewhere; it gets the lowest such address as one block with one reference, and any other request changes nothing |
| MmzZone.IsPow2Exactly | modules/ar_osal.c:228-231 | the alignments accepted are exactly the powers of two, by an exponent |
| MmzZone.ReleaseRemovesOnly | modules/ar_osal.c:293-308 | a release unlinks exactly the block that contains the address, or nothing |
| MmzZone.MmbList.FindGap | modules/ar_osal.c:234-247 | the gap walk stops at the specified candidate, or at an address that would overflow |
| MmzZone.MmbList.InsertSorted | modules/ar_osal.c:258-262 | the second walk puts the block before the first one above it |
| MmzZone.MmbList.AllocLocked | modules/ar_osal.c:213-262 | the two-walk allocator: the result is first fit's, and the list is the old one with the block inserted in address order |
| MmzZone.MmbList.Free | modules/ar_osal.c:293-308 | the block at the address is unlinked, whoever maps it |
| MmzZone.AllocKeepsValid | modules/ar_osal.c:244-262 | allocation adds exactly one page-rounded, aligned block inside the zone, clear of all others, and keeps the list sorted |
| MmzZone.ReleaseUndoesAlloc | modules/ar_osal.c:293-308 | releasing what an allocation returned gives back the very list it started from |
| MmzZone.RunKeepsValid | modules/ar_osal.c:213-308 | over every run of allocations and frees the list stays sorted, pairwise disjoint and inside the zone |
| MmzZone.GetByPhys | modules/ar_osal.c:417-433 | the lookup finds the first block containing the address |
| MmzMaps.StepIsExact | modules/ar_osal.c:540-577 | a step keeps every block's user count equal to the number of registered mappings starting in it if and only if it does not carve a block over the start of a mapping already registered |
| MmzMaps.CountsExactOverRuns | modules/ar_osal.c:540-577 | over every run that maps only live blocks the counts are exact and every mapping starts in a live block |
| MmzLedger.BlockFate | modules/ar_osal.c:767-857 | what a step does to any block: FREE takes it exactly when nothing maps it, PUT exactly when it drops the last reference and nothing maps it, and every other step leaves it with exactly its own counts changed |
| MmzLedger.NoStrayBlocks | modules/ar_osal.c:213-262 | no block appears but the one an allocation carves, with one reference and no mapping |
| MmzLedger.CountsBalance | modules/ar_osal.c:376-411 | over every run that maps only live blocks, while a block stays its references are those it had plus GETs less PUTs, and its kernel count is the mappings outstanding |
| MmzMaps.MappedBlockSurvives | modules/ar_osal.c:767-785 | in every such run, while a user or kernel mapping holds the block at an address, the block there stays that very block |
| MmzMaps.StepKeepsListed | modules/ar_osal.c:767-785 | no step removes a block a registered mapping starts in or the kernel maps |
| MmzMaps.MappingUnallocatedMemoryBreaksIt | modules/ar_osal.c:540-557 | a concrete run: mapping a free page and allocating it later lets FREE take a block that is still mapped |
| MmzMaps.SecondDeleteHarmlessIff | modules/ar_osal.c:794-799 | the unmap ioctl's second registry delete is harmless if and only if the address has not been mapped again in between |
| MmzMaps.RegistryStaysCurrentIff | modules/ar_osal.c:540-577 | a step keeps the registry listing exactly the addresses really mapped if and only if it is not a second delete of a mapped address |
| MmzMaps.LateSecondDeleteBreaksIt | modules/ar_osal.c:794-799 | a concrete run that maps only live blocks: a second delete after the address was mapped again lets FREE take a block that is still mapped |
| MmzMaps.MappedAddressKeepsBlock | modules/ar_osal.c:767-799 | over every run that maps only live blocks and never second-deletes a mapped address: each address really mapped has a registry entry, and the block its entry starts in stays that very block while the address stays mapped |
| MmzMaps.ZoneAllocIsFresh | modules/ar_osal.c:213-262 | what first fit returns in one of several disjoint zones is clear of the blocks of them all |
| MmzMaps.Registry.UserMapAdd | modules/ar_osal.c:540-557 | registration puts the mapping first and raises the count of the block it starts in |
| MmzMaps.Registry.UserMapDel | modules/ar_osal.c:560-577 | the first entry for the address goes and its block's count drops |
| MmzMaps.Registry.FreeIoctl | modules/ar_osal.c:767-785 | FREE removes the block at the address unless it is mapped |
| MmzMaps.Registry.PutIoctl | modules/ar_osal.c:849-857 | PUT drops the reference and removes the block at zero unless it is mapped |
| MmzMaps.Registry.MapToKernel | modules/ar_osal.c:376-392 | a kernel mapping succeeds exactly when the address is in a block and the map succeeds or one exists already, and then counts |
| MmzMaps.Registry.UnmapFromKernel | modules/ar_osal.c:400-411 | an unmap never takes the kernel count below zero |
| VbPools.HandlesAreExclusive | modules/ar_vb.c:312-371 | over every run, with other users of the zone: a granted handle is not granted again before its RLSBLK or its pool's DESTPL, keeps its range until then, and that range misses every other outstanding handle's |
| VbPools.NamedBlocksDisjoint | modules/ar_vb.c:312-350 | distinct handles of live pools, the same or different, denote disjoint ranges |
| VbPools.NamedBlockClearOfOthers | modules/ar_vb.c:271-284 | a pool block lies inside the zone and misses every zone block that is not its own pool's |
| VbPools.HandleRoundTrip | modules/ar_vb.c:375-411 | pa2hl of any address inside the block hl2pa names gives the handle back |
| VbPools.HandleLayout | modules/ar_vb.c:104-106 | a handle is the pool number above 16 bits of block index |
| VbPools.AddressRoundTrip | modules/ar_vb.c:375-411 | hl2pa of pa2hl of an in-pool address is the start of the block containing it |
| VbPools.GrantIsFresh | modules/ar_vb.c:341-350 | GETBLK grants a handle that was not outstanding, from the asked pool, of at least the asked size, and changes no other |
| VbPools.GetSucceedsIff | modules/ar_vb.c:312-352 | GETBLK on a pool, with a valid user and size, is granted if and only if one of its blocks is not out; on any pool, if and only if a live pool with blocks large enough has one that is not |
| VbPools.GetErrors | modules/ar_vb.c:312-352 | a refused GETBLK answers ENOSPC exactly when a valid request named a live pool with every block out, and EINVAL otherwise |
| VbPools.GrantIsLowest | modules/ar_vb.c:341-350 | the block granted is the lowest of its pool that is not out, under a handle of pool number and block index |
| VbPools.ReleaseFreesOnly | modules/ar_vb.c:355-372 | after RLSBLK of a named handle it is no longer out and every other handle is as before; RLSBLK is an error exactly for a handle of no live pool |
| VbPools.ReleaseUndoesGet | modules/ar_vb.c:312-372 | releasing what was just granted gives back the very state |
| VbPools.ReleasedIsGrantable | modules/ar_vb.c:312-372 | over every run, the pool of a block just released grants a request that fits, named or from any pool |
| VbPools.CreateIsExact | modules/ar_vb.c:243-290 | CRTPL succeeds if and only if the geometry is sound, a slot and bitmap memory are there and the zone has room; the new pool names exactly the blocks asked for, one after another from its base, none of them out, and no other pool changes |
| VbPools.CreateErrors | modules/ar_vb.c:243-290 | CRTPL answers EINVAL exactly for unsound geometry, ENOSPC exactly when that is sound and no slot is free, and ENOMEM exactly when only memory is missing |
| VbPools.DestroyIsExact | modules/ar_vb.c:293-309 | DESTPL of a live pool takes that pool away and gives its memory back, and changes nothing else |
| VbPools.DestroyUndoesCreate | modules/ar_vb.c:243-309 | destroying a pool just created restores the zone and the table |
| VbPools.TranslationFailsIff | modules/ar_vb.c:375-411 | HL2PA fails exactly for a handle that names no block, PA2HL exactly for an address in no pool |
| VbPools.StepKeepsInv | modules/ar_vb.c:243-371 | each command, and each allocation or free by others that spares pool memory, keeps every pool backed by its own zone block |
| VbPools.VideoBuffers.Crtpl | modules/ar_vb.c:243-290 | pool creation: the error cases in order, the bitmap failure that gives the memory back, and the new pool |
| VbPools.VideoBuffers.Destpl | modules/ar_vb.c:293-309 | pool destruction releases the memory and the slot, or changes nothing |
| VbPools.VideoBuffers.Getblk | modules/ar_vb.c:312-352 | the granted handle or error, and the cleared bit |
| VbPools.VideoBuffers.Rlsblk | modules/ar_vb.c:355-372 | the freed bit, or the error for a handle of no pool; an index past a live pool's blocks changes nothing and is no error |
| VbPools.VideoBuffers.Pa2hl | modules/ar_vb.c:375-388 | the first pool holding the address, and the block index |
| VbPools.VideoBuffers.Hl2pa | modules/ar_vb.c:391-411 | the block's address, or the error cases |
| BufCache.LookupIsDirectMap | modules/ml_dmabuf_map.h:110-162 | a lookup fails if and only if a mapping was needed and failed; success gives the segment a direct map would, in the asked direction or both, with exactly one reference held; failure leaves none |
| BufCache.MapFdKeepsInv | modules/ml_dmabuf_map.h:110-162 | hits, direction remaps, evictions and map failures keep one slot, one reference and one mapping per cached buffer and none besides |
| BufCache.OthersKeepTheirSlots | modules/ml_dmabuf_map.h:110-162 | a lookup leaves every other buffer's slot as it was, unless the buffer was not cached, no slot was free and the slot is the least recently used |
| BufCache.HitOnlyStamps | modules/ml_dmabuf_map.h:121-134 | a buffer mapped in a direction that serves is not mapped again, only stamped |
| BufCache.MappingCache.Get | modules/ml_dmabuf_map.h:110-162 | the lookup with its search, remap and eviction loops computes the specified cache and result |
| BufCache.MappingCache.LeastRecent | modules/ml_dmabuf_map.h:144-152 | the eviction loop picks the first slot with the smallest stamp |
| BufCache.MappingCache.Search | modules/ml_dmabuf_map.h:124-141 | the search finds the buffer's slot, or the first free one |
| BufCache.MappingCache.Release | modules/ml_dmabuf_map.h:165-172 | release gives back every reference and mapping |
| BatchPin.ScalerBatchIsPinned | modules/ar_scaler.c:732-855 | whatever the cache held before, a batch handed to the hardware is the whole batch, operation by operation as requested, at the requested offsets into the requested buffers, and every image lies at 32-bit addresses inside a segment that is referenced and mapped, for reading a source and for writing a destination, at that moment |
| BatchPin.ScalerBatchServedIff | modules/ar_scaler.c:744-856 | with buffers that can be looked up and mapped, a batch is handed over if and only if it has one to eight operations, a clear reserved field, and every operation's geometry, bounds and addresses are sound |
| BatchPin.ResolvesIffSound | modules/ar_scaler.c:744-809 | one operation resolves if and only if it is sound; the error is the range error when only the 32-bit addresses are at fault and the argument error otherwise |
| BatchPin.LookupErrorsPass | modules/ar_scaler.c:778-797 | an operation whose geometry is sound fails with the error of the first lookup that fails, a bad fd's or a failed map's |
| BatchPin.FirstFaultIsReported | modules/ar_scaler.c:744-856 | a batch fails with the error of its first operation at fault: the lookup's own, the range error when only its addresses are too high, or the argument error |
| BatchPin.RowsStayInImage | modules/ar_scaler.c:762-776 | each destination row of an accepted operation stays inside its stride and inside the image |
| BatchPin.LookupKeepsPins | modules/ar_scaler.c:732-742 | the counting step: while fewer slots than forty were stamped since the batch began, a lookup evicts only older entries, so every earlier pin holds its buffer, in a direction that still serves it |
| BatchPin.EvictionIsOlder | modules/ml_dmabuf_map.h:144-153 | while fewer slots than forty were stamped since a time, eviction takes one stamped no later |
| BatchPin.CropStaysInImage | modules/ar_scaler.c:766-776 | an accepted operation's crop window is read from inside its declared image |
| BatchPin.ScalerClient.Resolve | modules/ar_scaler.c:744-809 | one operation resolved: the checks in order, two lookups, bounds and 32-bit placement |
| BatchPin.ScalerClient.StartBatch | modules/ar_scaler.c:831-856 | a batch with any failing operation, a bad count or a reserved field issues nothing; a good one is issued whole |
| Blitter.BlitterBatchIsPinned | modules/ml_dmablit.c:120-175 | a started batch is the whole batch, each entry the copy requested at the requested offsets, inside source and destination buffers that are referenced and mapped, for reading and for both, at that moment; one that fails validation starts nothing and leaves the channel cursor |
| Blitter.SubmitSucceedsIff | modules/ml_dmablit.c:101-223 | with buffers that can be mapped, a submit returns 0 if and only if it has one to eight sound copies, the engine took the transfer and answered done; a copy is sound when it has bytes and both extents lie inside their buffers |
| Blitter.FirstFaultIsReported | modules/ml_dmablit.c:101-164 | validation fails with the destination's lookup error, or with that of the first copy at fault: its lookup's own, or the argument error |
| Blitter.ChannelsRotate | modules/ml_dmablit.c:166-172 | over any run of submits, between two picks of one channel every other channel is picked |
| Blitter.Compositor.SubmitBatch | modules/ml_dmablit.c:101-223 | the submit path: validation, channel choice, issue and the error of each engine outcome |
| Blitter.Compositor.FillEntries | modules/ml_dmablit.c:144-164 | the validation loop fills the specified entries and stops at the first bad copy |
| EngineSlots.FreeRemovesItsOwnRegistration | modules/ar_mpp_drv.c:84-95 | in every interleaving a registration disappears if and only if the free_irq issued for that very registration of that slot runs, and it removes nothing else |
| EngineSlots.SlotIsNotReusedEarly | modules/ar_mpp_drv.c:209-222 | a slot REGISTER takes has no free_irq in flight and no action or running handler |
| EngineSlots.HandlersPushToLiveFiles | modules/ar_mpp_drv.c:124-149 | a handler about to queue an event queues it to a file that is still open |
| EngineSlots.FreedFileIsForgotten | modules/ar_mpp_drv.c:165-195 | when a file's structure has been freed no slot and no running handler refers to it |
| EngineSlots.RegisterInstalls | modules/ar_mpp_drv.c:199-247 | REGISTER with a slot unused takes one for the calling file and the lines asked for and installs its handler; if request_irq fails the slot is unused again and nothing is installed |
| EngineSlots.HandlerReadsItsFile | modules/ar_mpp_drv.c:124-149 | a handler reads the file that registered its slot, or nobody if and only if the slot is being freed |
| EngineSlots.InterruptReachesItsFile | modules/ar_mpp_drv.c:124-149 | an interrupt on a registered line, with no free under way, ends in an event for the file that registered it, and its handler leaves everything else as it was |
| EngineSlots.FreeReleases | modules/ar_mpp_drv.c:250-298 | FREE of a line the file has registered leaves the slot unused and the action gone once no handler runs, and nothing else changed; of any other line it changes nothing |
| EngineSlots.ReleaseProceeds | modules/ar_mpp_drv.c:165-195 | in every run a release waits for nothing but a handler running on the line it is freeing, each of its own steps leaves fewer to go, nobody else sets it back, and at the end the file is gone |
| EngineSlots.StepKeepsInv | modules/ar_mpp_drv.c:124-298 | each critical section and interrupt-core action keeps slots, actions, handlers and operations consistent |
| EngineSlots.EventRing.Push | modules/ar_mpp_drv.c:136-145 | the handler appends an event, or drops it when 63 are queued |
| EngineSlots.EventRing.Pop | modules/ar_mpp_drv.c:326-329 | the waiter takes the oldest event |
| ScalerIrq.AttributedIffClockResetAborts | modules/ar_scaler.c:461-531 | in every run, with late DONE, DONE racing the timeout or latched across the reset and handlers starting at any time, a successful wait was completed by the operation it triggered, if and only if the clock gate ends a timed-out transfer |
| ScalerIrq.StepKeepsInv | modules/ar_scaler.c:461-625 | at most one transfer is on its way from engine to waiter, and it is the current operation's, through submit, wait and every step of the reset |
| ScalerIrq.RecoveryLeavesNothing | modules/ar_scaler.c:461-477 | after timeout recovery nothing of the old transfer is left in engine, status, handler or completion |
| ScalerIrq.NothingStartsWhileDown | modules/ar_scaler.c:479-531 | in every run, while the device is suspended or dead nothing is triggered and a new operation is turned away |
| ScalerIrq.DownIffAsked | modules/ar_scaler.c:1276-1310 | in every run the device is suspended exactly from a suspend to the next resume, and dead exactly once removed |
| ScalerIrq.LockIsTaken | modules/ar_scaler.c:479-492 | in a device that is up an operation gets the lock under a tag of its own |
| ScalerIrq.MaskedOnlyInRecovery | modules/ar_scaler.c:461-477 | in every run the interrupt is masked exactly between the mask and the unmask of a recovery |
| ScalerIrq.UndisturbedCompletes | modules/ar_scaler.c:479-531 | after every run, recoveries included, an operation that nothing disturbs gets its DONE and completes |
| Cm2Ladder.BoundRises | scripts/isp/check-cm2-ladder.py:139-161 | an installed bound never goes down as the gain rises, when its column does not and no gap exceeds 2^24 counts |
| Cm2Ladder.BoundFalls | scripts/isp/check-cm2-ladder.py:139-161 | an installed bound never goes up as the gain rises, when its column never goes up and no gap exceeds 2^24 counts |
| Cm2Ladder.BoundBetweenRows | scripts/isp/check-cm2-ladder.py:170-196 | every installed bound is its row's when the weight is 0, and otherwise the exact weighted mean of two adjacent rows' values cut off toward zero, between the two |
| Cm2Ladder.GainBetweenRows | scripts/isp/check-cm2-ladder.py:176-188 | the gain a row installs is its own when it is not blended, and otherwise the exact weighted mean of two adjacent rows rounded down, between their gains |
| Cm2Ladder.WeightIsPosition | scripts/isp/check-cm2-ladder.py:153-161 | the weight is how far the gain lies into the gap between two bands, as a fraction of 2^24 rounded down, and 0 off a gap or with interpolation off |
| Cm2Ladder.BlendBetween | scripts/isp/check-cm2-ladder.py:133-136 | a blend truncating toward zero lies between its ends and moves monotonically with the weight |
| Cm2Ladder.BlendU32Exact | scripts/isp/check-cm2-ladder.py:128-130 | an unsigned blend is the exact weighted mean rounded down, between its ends and monotone in the weight |
| Cm2Ladder.FractionPositiveIff | scripts/isp/check-cm2-ladder.py:153-161 | the weight is positive throughout a gap if and only if the gap is at most 2^24 |
| Cm2Ladder.RisingIffGapsSmall | scripts/isp/check-cm2-ladder.py:139-161 | on an interpolated axis whose bands are in order, every rising column installs a bound that rises with the gain if and only if no gap exceeds 2^24 counts |
| Cm2Ladder.WideGapBoundFalls | scripts/isp/check-cm2-ladder.py:139-161 | a concrete ladder and two adjacent gains: the column rises from 0 to 100 and the installed bound falls from 100 to 0 |
| Cm2Ladder.ReciprocalsDefined | scripts/isp/check-cm2-ladder.py:170-202 | over non-negative records with positive windows both divisions are defined for every gain, the row is the gain's index, the four bounds in order with the windows open, and each reciprocal is 1024 over its own window |
| Cm2Ladder.WindowOpenIff | scripts/isp/check-cm2-ladder.py:133-136 | a blended window keeps a positive width if and only if its two accumulators do not both truncate to zero |
| Cm2Ladder.NegativeBoundsCanCloseAWindow | scripts/isp/check-cm2-ladder.py:133-136 | two one-count windows either side of zero blend half way to an empty one |
| Cm2Ladder.DivisionFailsIff | scripts/isp/check-cm2-ladder.py:170-202 | over live records with positive windows of any sign, a row is refused by a division by zero if and only if the gain is blended and the two accumulators of one window both truncate to zero |
| Cm2Ladder.ReciprocalsRoundDown | scripts/isp/check-cm2-ladder.py:197-202 | whenever a row is installed, whatever the signs, the last two words are 1024 over the two windows rounded down |
| Cm2Ladder.SignedLadderFails | scripts/isp/check-cm2-ladder.py:170-202 | a concrete ladder and gain whose installed row fails to divide |
| Cm2Ladder.ConversionMonotoneIff | scripts/isp/check-cm2-ladder.py:107-125 | the Q8 conversion keeps order on non-negative patterns except from exponents 24..31 to exponents above 31 |
| Cm2Ladder.Q8IsRoundedDown | scripts/isp/check-cm2-ladder.py:107-125 | the Q8 conversion is 256 times the binary32 value rounded down, with the implicit bit always set; it saturates from 2^32 on and gives 0 for negative patterns |
| Cm2Ladder.Q16IsQ8OfMore | scripts/isp/check-cm2-ladder.py:86-125 | the Q16 conversion is the Q8 conversion of 256 times the value up to its saturation at 2^16, and both take 1.0 to one |
| Cm2Ladder.SelectRow | scripts/isp/check-cm2-ladder.py:139-161 | the band loop and the weight |
| Cm2Ladder.RowFromBlob | scripts/isp/check-cm2-ladder.py:176-202 | the seven words, or a division failure; the colour-temperature index never matters |

## Left out

- Hardware access: CMD52 and CMD53 transfers, register maps, clocks and device-tree parsing; only the state they touch is kept.
- Kernel plumbing: copying from and to user space, device registration, logging, statistics other than rx_frame_errors, debug parameters.
- Socket buffers are byte sequences; a packet's header is rewritten in an array of its own, and the read buffer and the segment to upload are passed as sequences, so aliasing between buffers is not captured.
- A failing CMD53 write of a transfer: the source logs it and goes on as if it had succeeded, and so does the model; a failing read changes nothing and is not a step.
- Allocation failure inside the tunnel parser and of the mapping registry's entry: both are taken to succeed.
- Allocating the list node of a new block always succeeds; a failure there returns as a failed allocation does. A read longer than the receive buffer cannot occur, since a count is at most 255 blocks.
- The header checksum instruction is modelled by its definition, the one's complement sum of section 1 of RFC 1071.
- The receive accumulators `rx_read_acc` and `rx_write_acc`: a read is a step with the bytes it got. Interrupts apply grants first, then the ACKs of the read, then one pass, as the handler does.
- The video packet classifier (its result is discarded), the mailbox messages, the raw MMC command ioctl and the blocking of readers and writers.
- The netdev queue's stop and wake: a stopped queue is an environment that offers no packet.
- Bytes flushed on the way when the staging buffer overflows are not added to `unacked_bytes`, and an overlarge grant can cause several transfers: the model does as the code does, and byte-per-grant claims are for grants of at most 65536 bytes.
- The comment beside `unacked_max` calls 0 the default; the parameter's default is 40960. Every window value is covered.
- LinkEndToEnd.EndToEnd: every packet offered is either of a kind the packing loop throws away or 21 to 4352 bytes whose first byte is 0x45, with a carried protocol, an honest total length and both addresses under the prefix; the peer's interface is up throughout. LinkReopen has it go down and up between reads; a change between two runs of one read is not modelled.
- TxSchedule.NoStrandedGrant: during an interface close, between cancelling the work and emptying the queues, queued data with open credit has no pass coming; the close discards it.
- MmzZone.FirstFitIsExact: the zone's base plus twice its size does not wrap 64 bits; the source checks only the candidate's own end.
- MmzMaps.CountsExactOverRuns: one address space, whole mappings, blocks released only by the FREE and PUT ioctls; a partial unmap or a kernel-side free of a mapped block is not modelled.
- Zone names and the choice of a zone by name: the pools use one zone, and the registry a flat list of the blocks of all zones.
- Pool names, types, owner ids beyond their range check, supplements, and the commands that only copy fields.
- BufCache.LookupIsDirectMap: a buffer's segment is a function of the buffer, and the 64-bit clock of stamps does not wrap.
- Cache coherency maintenance, the scaler's geometry checks after resolving, its descriptor packing, lookup table and frequency table.
- EngineSlots.FreeRemovesItsOwnRegistration: one operation in flight per open file; threads sharing a file could free a slot whose registration is still being requested. Masking and unmasking an interrupt line do not touch slots and are not steps.
- ScalerIrq.AttributedIffClockResetAborts: a handler may start at any time, masked or not, which is more than the hardware allows; a batch is one operation with one DONE. Interruption of the lock wait and validation errors leave before anything is submitted.
- The reset's early return without a control block cannot be reached after a successful probe; the model covers it as a clock gate that stops nothing.
- Weak memory ordering: barriers and locks are sequentially consistent steps.
- The blob's byte offsets in the ladder script: records are decoded fields, and the comparison with the driver's tables is not modelled.
- GPIO, ADC, temperature, PWM, the other system modules and the other ISP scripts: they would add only easy members or rest on captures that are not in the repository.
