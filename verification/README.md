# HardLog: a verified model

HardLog takes audit records from kernel threads to a log file on a separate audit device, and brings logs back on
request. This project models that path and proves what it keeps:

1. A record is put together in a 512-byte event buffer (`EventBuffer`, `UntrustedString`), and at its end goes to
   the host's ring, HostBuf (`AuditEnd`, `HostRing`).
2. One flusher thread drains HostBuf: it snapshots a window, cuts it into pages, batches the pages into block
   requests and moves `tail` (`BioWrite`, `HostFlush`). `HostRun` is the state machine of producers, flusher,
   waiting priority syscalls and yielding response readers, over all interleavings; `HostDevice` adds the staging
   page, the pages each flush sends, read from the ring one by one with appends in between, and the sectors they
   take. `DeviceRuns` makes runs of it that show what can happen.
3. On the device, the USB transfer loop pipelines the host's data through buffer heads (`UsbTransfer`) into a second
   ring that another flusher thread drains to the log file (`DeviceRing`). `Delivery` joins 2 and 3: from a record
   that a thread has waited for to the byte of the log file that holds it.
4. A request/response protocol returns logs: the command sector and its flag (`Protocol`, `Ioctl`), the READY
   message (`ReadyMessage`), the bytes of the response (`ResponsePath`), and the two ways a response is made from
   the log file, trimmed (`LogDump`) or filtered (`LogFilter`); `Answering` goes from the log file to what the host
   reads back, over any number of requests.

`Bytes` holds what all of them share: bytes, memory copies, C strings, lines and a little arithmetic.

Code that updates state in place is modelled by classes, arrays and loops, each proved against a specification
function; threads that interleave are modelled by events of a state machine, one event for each step that others can
come between. Ring sizes are symbolic: HostBuf's is any positive multiple of the page size, the device ring's any
positive number.

The model does what the code does, also where that is not what a comment says. These are proved, not assumed away:

- The space check of HostBuf ignores the record's length. The comment in `host/module/hl-logger.c:87-89` says there
  will be no overflow; there is none of the allocation, but for every ring size some run overwrites an unflushed
  record (`HostRun.SpaceCheckIsNotEnough`), and `HostRun.AppendDisturbsExactly` says exactly when an append does.
- `bio_write` looks full pages up by address, so a page is sent from its own start, not from the window's offset.
  `HostFlush.PageCoverage` says exactly which of its own bytes a window's pages miss, `HostFlush.FrontCoverage` which
  bytes of earlier windows they send again, and `HostFlush.SentExactly` which bytes the windows of a run send between
  them; `HostFlush.CarriedExactly` says which bytes of a record a window fetches from the record's cells. A byte that
  its window missed is sent after all if a later window starts on its page and has a whole page, and is lost for good
  once the flushed stretch has left its page (`DeviceRuns.CanBeSentExactly`, `DeviceRuns.LostForGood`); from every
  start both can happen (`DeviceRuns.ByteIsResent`, `DeviceRuns.ByteIsLost`).
- The padding of a last page is what the latest longer last page left in the staging page
  (`BioWrite.PaddingIsStale`, over runs `HostDevice.PaddingOverRun`). For text without NULs it is NUL exactly if
  the staging page was allocated so and no earlier flush ended in a longer short page
  (`BioWrite.PaddingIsNulExactly`); two records and two flushes suffice for it not to be
  (`DeviceRuns.PaddingHoldsOldRecord`).
- A text that does not fit the event buffer is counted ten bytes short of its full length, not of what was stored
  (`EventBuffer.TruncationKeepsPrefix`).
- After a text more than ten bytes too long, the quoted and the hex form write outside the event buffer, and no
  other append does (`EventBuffer.StaysExactly`).
- A device ring filled to exactly its size is taken for empty, and both sides then wait for ever
  (`DeviceRing.FullRingIsStuck`); every device can get there (`DeviceRing.RingGetsStuck`). What spills past the
  ring's end is not mirrored (`DeviceRing.SpillIsLost`, reached by `DeviceRing.SpillIsReached`).
- The log is written once and for all exactly if `faststorage` is on (`DeviceRing.WriteOnceExactly`); without it the
  log unit is a plain file (`DeviceRing.PlainFile`).
- The gadget ignores addresses, so pages are in the log file where their sectors say until a request fails, and never
  again after that (`Delivery.PlaceIsSector`).
- `REQUEST` reads and clears its flag in two steps; a request raised in between is lost for good
  (`Protocol.LossExactly`, `Protocol.LostForever`).
- The READY message has no terminator: digits left in the command sector behind it are read as part of the size
  (`ReadyMessage.ReadyRoundTrip`, `Protocol.ShorterNumberMisread`); from every start, two requests can lead there
  (`Protocol.MisreadIsReached`).
- A refused request leaves the temporary response file, and `commit` publishes it as the answer: the host gets the
  response of the latest request that was not refused (`Answering.AnswerIsLatest`).
- `dump_log` trims its whole buffer after every read, so a short read repeats old bytes (`LogDump.ShortReadRepeats`),
  and a dump covers whole chunks (`LogDump.ChunkedTrimIsWholeTrim` says when that is the window).

Check everything with `dafny verify dfyconfig.toml`.

## Model

| member | source | states |
|---|---|---|
| EventBuffer.TruncationKeepsPrefix | host/module/hl-logger.c:161-174 | a call that truncates keeps a prefix of 501 to 510 bytes of the record so far followed by its text; it counts bytes it never stored exactly when the text is more than nine bytes longer than its room |
| EventBuffer.ExactConcatenation | host/module/hl-logger.c:142-174 | over every sequence of append calls: the record is the exact concatenation of all pieces if and only if they come to at most 510 bytes (511 if the last is hex digits); otherwise it is shorter |
| EventBuffer.StringCall | host/module/hl-logger.c:178-233 | a quoted or hex string that does not fit leaves the record as it was; one that fits is appended whole |
| EventBuffer.RecordedStays | host/module/hl-logger.c:161-174 | no later call changes the first 501 bytes recorded |
| EventBuffer.RecordOfRun | host/module/hl-logger.c:251-280 | the record of a run is dropped exactly if it has fewer than 35 bytes before its end or a NUL, is one byte longer than what was consumed and at most 512, and ends in a newline exactly if at most 509 bytes were consumed |
| EventBuffer.StaysExactly | host/module/hl-logger.c:142-232 | which sequences of append calls stay in the 512 bytes: exactly those in which only formatted texts follow a text more than ten bytes longer than its room |
| EventBuffer.PastTheBuffer | host/module/hl-logger.c:161-174 | of the sequences that stay: consumed ends past the buffer, where the record's newline would be written outside it, if and only if some text was more than ten bytes longer than its room |
| EventBuffer.CountedIsLength | host/module/hl-logger.c:164-232 | consumed is the length of the content as long as it counts only stored bytes |
| EventBuffer.EventBuf.constructor | host/module/hl-logger.c:115-130 | a fresh buffer with nothing consumed |
| EventBuffer.EventBuf.Format | host/module/hl-logger.c:133-175 | the buffer's content becomes what the append of a formatted text means, for every text; all writes stay in the 512 bytes |
| EventBuffer.EventBuf.NString | host/module/hl-logger.c:178-204 | for every call that stays in the buffer: the content grows by the quoted string if it and a terminator fit, and is kept otherwise |
| EventBuffer.EventBuf.NHex | host/module/hl-logger.c:207-233 | for every call that stays in the buffer: the content grows by two upper-case hex digits a byte if they fit, and is kept otherwise |
| EventBuffer.EventBuf.End | host/module/hl-logger.c:251-280 | hands out the record of the content, or none for an end marker; strlen of the raw buffer decides as the content's own length would |
| UntrustedString.FieldRoundTrip | host/kernel/linux-5.4.92-host.diff:279-297 | followed by nothing, or by neither a hex digit nor a quote, a field is read back as its string with the rest left over, if and only if the control test flags the string or it has no quote |
| UntrustedString.FieldsDiffer | host/kernel/linux-5.4.92-host.diff:279-297 | if the control test flags quotes, two fields with what so follows them are equal if and only if the strings and the rests are |
| UntrustedString.StringInRecord | host/kernel/linux-5.4.92-host.diff:279-297 | a string recorded anywhere in a record that is not too long, with such a piece behind it, is read back from the record at its field's offset |
| UntrustedString.LogUntrusted | host/kernel/linux-5.4.92-host.diff:279-297 | appends the quoted or the hex form, as the control test chooses |
| AuditEnd.AuditLogEnd | host/module/hl-logger.c:236-306 | every record the event buffer can produce fits the ring's slot and is appended as one piece; an end marker, or a full ring, leaves the ring as it was |
| HostRing.AppendOverlapsExactly | host/module/hl-logger.c:286-294 | an append writes into an earlier record less than a lap old if and only if it has wrapped and reaches past that record's start one lap on; what spills into the slack reaches nothing |
| HostRing.HitsExactly | host/module/hl-logger.c:86-98 | an append that the space check allows writes into no unflushed stretch unless it wraps past tail and reaches beyond it, and then into the one that starts at tail |
| HostRing.AppendKeepsRecord | host/module/hl-logger.c:86-98 | the disturbance bound: an append of n bytes leaves intact every record that starts at or after head + n - size, slack bytes included |
| HostRing.HostBuf.constructor | host/module/hl-logger.c:351-361 | an empty ring of size + 4096 bytes |
| HostRing.HostBuf.Append | host/module/hl-logger.c:283-297 | the new ring is the old one with the record at head modulo size and head moved past it, or the old one while the caller waits; the record and all records within the bound are intact; head is at most tail + size + 511 |
| HostRing.HostBuf.SetTail | host/module/hl-main.c:285-286 | moves tail and nothing else |
| HostRun.RunSafety | host/module/hl-main.c:242-289 | over all interleavings tail <= head <= tail + size + 511, and the windows given to usb_write are a gapless, disjoint, in-order partition of [0, tail) cut at record boundaries |
| HostRun.BoundIsReached | host/module/hl-logger.c:93-95 | the bound is reached: from every start and for every ring size, a run to head == tail + size + 511 |
| HostRun.PassOverRuns | host/module/hl-main.c:242-289 | whatever comes between the steps of a pass: the window written is from the tail to the head that its first step found, after its fifth step tail is that head, and hardlog_logging is up from its third step to its last |
| HostRun.RecordInOneWindow | host/module/hl-main.c:248-286 | each record that the windows have reached lies whole in one of them |
| HostRun.PriorityDurability | host/module/hl-logger.c:297-320 | a priority syscall that appends its record in any reachable state, in any continuation after which it has stopped waiting: every byte up to the end of its own record is in a window whose usb_write has returned, and its record and each one before it lies whole in one of them |
| HostRun.BoundedWait | host/module/hl-logger.c:310-315 | two flush passes completed after its append let a priority syscall go, from every reachable state and in every continuation |
| HostRun.WaitEnds | host/module/hl-logger.c:310-315 | from every reachable state, at most eleven steps of the flusher let any waiting priority syscall go |
| HostRun.OnePassIsNotEnough | host/module/hl-logger.c:310-315 | the bound is tight: from every start and for every record, a run in which one pass completes after the append and the priority syscall still waits |
| HostRun.BoundedInterference | host/module/hl-response.c:113-121 | while hardlog_logging stays up, a response reader submits at most one sector read, and none if it is yielding |
| HostRun.ReaderGoesOnExactly | host/module/hl-response.c:113-121 | a yielding reader goes on to submit its read if and only if it finds the flag down |
| HostRun.SpaceCheckIsNotEnough | host/module/hl-logger.c:93-95 | for every ring size and from every start, a run in which an append that the space check allows overwrites a record no flush has reached |
| HostRun.AppendDisturbsExactly | host/module/hl-logger.c:86-98 | over every run: an append that the space check allows writes into the cells of some unflushed record if and only if it wraps past tail and reaches it again from behind |
| HostRun.UnhitRunKeepsRecords | host/module/hl-logger.c:283-294 | over a run in which no append does so, every unflushed record is intact |
| BioWrite.StagedByLatest | host/module/hl-bio-fs.c:169-173 | over every history of flushes, failed ones included, a byte of the staging page is that of the latest short last page long enough to reach it, and what the page was allocated with if there was none |
| BioWrite.PaddingIsStale | host/module/hl-bio-fs.c:169-173 | and that byte is the padding of the next short last page |
| BioWrite.PaddingIsNulExactly | host/module/hl-bio-fs.c:169-173 | for NUL-free text, the padding is NUL if and only if the staging page was allocated NUL there and no earlier flush ended in a longer short page |
| BioWrite.LeftIsStaged | host/module/hl-bio-fs.c:169-173 | the staging page as the loop leaves it is that of the history |
| BioWrite.WriteSectorsMeans | host/module/hl-bio-fs.c:153-173 | the sectors of a request land one after the other from its first sector, and no other sector changes |
| BioWrite.BioSplits | host/module/hl-bio-fs.c:177-202 | a request of some pages is that of the first ones followed by that of the others, eight sectors a page further on |
| BioWrite.BatchingIsInvisible | host/module/hl-bio-fs.c:153-223 | any sequence of requests leaves the device as writing each of their pages to its own eight-sector slot would |
| BioWrite.OwnSlotsGrow | host/module/hl-bio-fs.c:154-172 | pages sent from the next free sector on share no sector with any earlier page |
| BioWrite.SlotStays | host/module/hl-bio-fs.c:153-202 | every byte of a page in a slot of its own stays on the device |
| BioWrite.UsbWriter.constructor | host/module/hl-bio-fs.c:95-107 | the first free sector is the one after the welcome message |
| BioWrite.UsbWriter.AddPage | host/module/hl-bio-fs.c:165-173 | adds the page the index is in, or the last bytes over the staging page, and takes eight sectors; the staging page keeps a short last page and is otherwise unchanged |
| BioWrite.UsbWriter.Submit | host/module/hl-bio-fs.c:182-202 | the device takes all pages of the request, or a first part of them if it fails; the next request starts at the next free sector |
| BioWrite.UsbWriter.SendPages | host/module/hl-bio-fs.c:158-208 | the loop gathers the window's pages in order, 256 to a request, and stops at the first failure; the staging page is left with the last short page if that was gathered |
| BioWrite.UsbWriter.Write | host/module/hl-bio-fs.c:120-236 | the device takes a first part of the window's pages in consecutive slots, and on success exactly the ceiling of size / 4096 pages; success is reported exactly for a non-empty window whose every request succeeds; the staging page is left with the last short page if that was gathered |
| BioWrite.UsbWriter.Flush | host/module/hl-bio-fs.c:120-236 | and no flush reuses a sector of an earlier one |
| HostFlush.SentByte | host/module/hl-bio-fs.c:160-173 | each byte sent ahead of the padding is that of one stated ring cell |
| HostFlush.PageCoverage | host/module/hl-bio-fs.c:158-208 | a byte of the window is sent by its pages if and only if it is not among the start modulo 4096 bytes before the window's last part |
| HostFlush.FrontCoverage | host/module/hl-bio-fs.c:165-168 | a byte ahead of the window is sent by its pages if and only if it is on the page the window starts in and the window has a whole page |
| HostFlush.SentExactly | host/module/hl-bio-fs.c:158-208 | a flushed byte is sent by some window of a run if and only if its own window's pages send it or a later window that starts on its page has a whole page |
| HostFlush.NothingMissed | host/module/hl-bio-fs.c:158-208 | a window's pages miss nothing of it if and only if the window starts on a page boundary or is shorter than a page |
| HostFlush.LookupFindsRecord | host/module/hl-bio-fs.c:160-173 | a record's byte is looked up in its cell if and only if the lookup starts on the lap the record was appended on |
| HostFlush.CarriedExactly | host/module/hl-bio-fs.c:160-173 | for every window, before or behind the record and on however many laps: a byte of a record is fetched for its offset from the record's own cell if and only if its page or last part is sent and is looked up on the record's lap |
| HostFlush.ByteDelivered | host/module/hl-bio-fs.c:158-208 | each carried byte of a record that its page finds undisturbed, spilled or not, is in that page at its place |
| HostFlush.PlainWindowCarries | host/module/hl-bio-fs.c:158-208 | a window on one lap that is page aligned or short carries every byte of its records |
| HostFlush.Auditd.constructor | host/module/hl-main.c:242-243 | the flusher starts with no sector used beyond the welcome message and the flag down |
| HostFlush.Auditd.Snapshot | host/module/hl-main.c:247-250 | the window is [tail, head) |
| HostFlush.Auditd.WriteOut | host/module/hl-main.c:279-283 | whatever has been appended since the snapshot, the pages of its window go out, or a first part if the device fails, in sectors of their own; ring and snapshot are unchanged and the flag is up |
| HostFlush.Auditd.Finish | host/module/hl-main.c:285-289 | tail becomes the snapshot of head and the flag goes down, whatever came of the write |
| HostFlush.Auditd.AppendUnder | host/module/hl-main.c:247-286 | an append, wherever in a pass it comes, leaves the snapshot good |
| HostFlush.Auditd.Pass | host/module/hl-main.c:242-289 | the loop body with nothing in between: tail becomes head, the pages of [tail, head) go out, or a first part if the device fails, and the staging page is left with the last short page if that was gathered |
| HostDevice.RigIsHostRun | host/module/hl-main.c:242-289 | every run with pages read one by one is, for the host, a run of HostRun |
| HostDevice.PriorityOnDevice | host/module/hl-logger.c:297-320 | over every run in which no append, wherever among the pages of a write it comes, wraps into unflushed bytes: when a priority syscall stops waiting, its own record and all before it lie whole in flushed windows, and each of their bytes that this flush or any other carries, while the record is unflushed or less than a lap old, is on the device at a stated sector and offset |
| HostDevice.PaddingOverRun | host/module/hl-bio-fs.c:169-173 | over every run, the padding of a flush is what the latest longer last page left, or what the staging page was allocated with |
| HostDevice.PagesFillSectors | host/module/hl-bio-fs.c:154-172 | over every run without device failures, the flushes' pages fill the sectors behind the welcome message without a gap |
| DeviceRuns.LostForGood | host/module/hl-bio-fs.c:160-173 | a flushed byte that no write has sent, on a page that the flushed stretch has left, is sent in no continuation |
| DeviceRuns.CanBeSentExactly | host/module/hl-bio-fs.c:160-173 | between two passes, some continuation sends an unsent byte if and only if the next window is to start on its page |
| DeviceRuns.ByteIsLost | host/module/hl-bio-fs.c:160-173 | from every start and for every ring size, a run without disturbing appends after which the byte at offset 4096 is flushed and never sent in any continuation |
| DeviceRuns.ByteIsResent | host/module/hl-bio-fs.c:160-173 | and one in which its own window misses it and the next window sends it |
| DeviceRuns.PaddingHoldsOldRecord | host/module/hl-bio-fs.c:169-173 | from every start, a record, a flush, a shorter record and a flush leave the first record's bytes behind the second's |
| UsbTransfer.TransferSafety | device/module/linux-4.4.213-usb-gadget.diff:1030-1163 | over every interleaving with completions, errors, short packets and signals: buffers are drained in the order they were filled, the bytes requested are those outstanding plus those drained, the file offset stays within the file, and amount_left_to_write and residue fall in lockstep without underflow, by exactly the bytes appended |
| UsbTransfer.PiecesAre | device/module/linux-4.4.213-usb-gadget.diff:1043-1079 | over every run, the pieces asked of the host are the command cut into whole buffers and a rest, in order, those that begin within the file; requests stop only at the command's or the file's end; each transfer is its piece rounded up to whole packets |
| UsbTransfer.LeftAsArrived | device/module/linux-4.4.213-usb-gadget.diff:1085-1155 | over every run, told from its completions: the ring gets of each drained transfer as many whole blocks as were sent, asked for and fit the file, and nothing of a failed one; all but the last were whole and without error; the exit is a transfer error if and only if the last failed, a short packet only if it was short, and the loop ends with it |
| UsbTransfer.SignalLeaves | device/module/linux-4.4.213-usb-gadget.diff:1133-1160 | with a signal pending no turn appends and goes on, one that appends leaves the counters as they were, and one that would wait leaves the loop; without one the loop is not left for it |
| UsbTransfer.GoneLeaves | device/module/linux-4.4.213-usb-gadget.diff:1073-1076 | the loop is left for a missing gadget if and only if it was to start a transfer |
| UsbTransfer.WaitsOnlyForTransfers | device/module/linux-4.4.213-usb-gadget.diff:1085-1161 | when a turn of the loop changes nothing, the buffer to drain has its transfer in flight |
| UsbTransfer.CleanCommandDelivers | device/module/linux-4.4.213-usb-gadget.diff:1030-1163 | a clean, unclipped command of whole blocks always has a prefix of its payload in the ring, ends only when all is written, and then has exactly the payload, in order; the residue is that of section 5.2 of USB Mass Storage Class Bulk-Only Transport 1.0 |
| UsbTransfer.CleanCommandEnds | device/module/linux-4.4.213-usb-gadget.diff:1041-1161 | a clean command has at most three events a byte, and one, that do anything, and until it has written everything one is at hand: a turn of the loop or the completion it waits for |
| UsbTransfer.FsgTransfer.constructor | device/module/linux-4.4.213-usb-gadget.diff:1030-1034 | the loop's state on entry |
| UsbTransfer.FsgTransfer.RequestMore | device/module/linux-4.4.213-usb-gadget.diff:1043-1083 | queues the next piece, or stops asking beyond the end of the file |
| UsbTransfer.FsgTransfer.DrainNext | device/module/linux-4.4.213-usb-gadget.diff:1086-1155 | empties the next buffer and appends what is accepted of it, or leaves the loop on a failed transfer, a signal or a short packet |
| UsbTransfer.FsgTransfer.LoopTurn | device/module/linux-4.4.213-usb-gadget.diff:1041-1161 | the driver's fields follow the state machine's turn |
| DeviceRing.LogIsAppendOnly | device/module/linux-4.4.213-usb-gadget.diff:196-207 | with faststorage on, over all WRITE commands to all units at all LBAs and all flusher schedules, file_end_offset never falls and no log byte below it changes |
| DeviceRing.WriteOnceExactly | device/module/linux-4.4.213-usb-gadget.diff:196-208 | from its start, a device has a run that changes a byte of the log file twice if and only if faststorage is off |
| DeviceRing.PlainFile | device/module/linux-4.4.213-usb-gadget.diff:202-208 | with faststorage off, after every run the log file is the original with each WRITE laid over it at its LBA, and ring and end offset are as they were set up |
| DeviceRing.OtherUnits | device/module/linux-4.4.213-usb-gadget.diff:196-208 | with faststorage on or off, every other unit's file is the original with each of its WRITEs laid over it, and no WRITE to another unit touches it |
| DeviceRing.PatchedByte | device/module/linux-4.4.213-usb-gadget.diff:202-208 | each byte of such a file is that of the latest WRITE that covers it |
| DeviceRing.FileIsStreamPrefix | device/module/linux-4.4.213-usb-gadget.diff:602-640 | over all interleavings of fitting appends with one- and two-piece flushes, the file is the first tail bytes received between passes, and those plus the pieces written during one |
| DeviceRing.EqualChunksAreTidy | device/module/linux-4.4.213-usb-gadget.diff:1125-1130 | chunks of one size dividing the ring's always fit |
| DeviceRing.PassIsSteps | device/module/linux-4.4.213-usb-gadget.diff:605-640 | an undisturbed pass is what its steps do |
| DeviceRing.PassOverRuns | device/module/linux-4.4.213-usb-gadget.diff:605-640 | with any appends in between: a pass that finds an occupancy not 0 modulo the ring size moves tail to its snapshot with its last step, and is at work for it until then; its writes, if they succeed, come to the occupancy modulo the ring size; any other pass does nothing |
| DeviceRing.WriteTakes | device/module/linux-4.4.213-usb-gadget.diff:507-548 | over every run with fitting appends, whatever came of earlier writes: of the stretch of the stream that a write is for, exactly what vfs_write takes follows at the file position, and the end offset moves there unless that is nothing |
| DeviceRing.PassDelivers | device/module/linux-4.4.213-usb-gadget.diff:605-640 | for fitting appends, the file is then everything received before the pass began |
| DeviceRing.ReceivedIs | device/module/linux-4.4.213-usb-gadget.diff:1125-1130 | the ring receives the log unit's data in order, whatever its LBAs |
| DeviceRing.FullRingIsStuck | device/module/linux-4.4.213-usb-gadget.diff:605-622 | a ring filled to exactly its size stays as it is through every run |
| DeviceRing.RingGetsStuck | device/module/linux-4.4.213-usb-gadget.diff:961-968 | from every start, chunks of any length dividing the ring's can fill it to exactly its size |
| DeviceRing.SpillIsLost | device/module/linux-4.4.213-usb-gadget.diff:1126-1129 | a chunk past the ring's end, for which there is room, is flushed behind whatever was pending with its last bytes replaced by what the ring's first cells held; the file is right if and only if those are the same |
| DeviceRing.SpillIsReached | device/module/linux-4.4.213-usb-gadget.diff:1126-1129 | from every start, for every ring size from 3 on, a run to such a chunk |
| DeviceRing.DataCbuff.constructor | device/module/linux-4.4.213-usb-gadget.diff:1203-1211 | an empty ring with its slack |
| DeviceRing.DataCbuff.Append | device/module/linux-4.4.213-usb-gadget.diff:1125-1130 | the ring with the data at head modulo size and head moved, or unchanged while the gadget waits for space |
| DeviceRing.DataCbuff.FsWrite | device/module/linux-4.4.213-usb-gadget.diff:507-548 | the bytes vfs_write takes are at the file position, which moves past them; the end offset follows unless none was taken |
| DeviceRing.DataCbuff.FlushPass | device/module/linux-4.4.213-usb-gadget.diff:605-640 | one pass, whatever vfs_write makes of its requests |
| Delivery.AppendedIsPayloads | device/module/linux-4.4.213-usb-gadget.diff:1030-1163 | over a sequence of clean commands the device ring gets their payloads, one after the other |
| Delivery.PlaceIsSector | device/module/linux-4.4.213-usb-gadget.diff:1125-1130 | a page is in the stream where its sector says if and only if no sector before it was left out; after a gap, none is |
| Delivery.SentIsInLog | device/module/linux-4.4.213-usb-gadget.diff:602-640 | each byte sent is in the log file, as far into it as into all that was sent, once it has been flushed |
| Delivery.PriorityInLog | host/module/hl-logger.c:297-320 | from end to end: the bytes of a priority syscall's own record and of all before it, that its flush or any other has in reach, are in the log file at a stated offset once it has stopped waiting and what was sent has gone through clean commands and fitting appends to a device flusher that is up to date |
| Protocol.RequestSays | device/library/decode.cpp:74-88 | a request is read back by the device library as the word that was sent, and taken for an answer by the client if and only if that word is READY |
| Protocol.RequestsInOrder | device/library/device.cpp:43-60 | over all interleavings the commands are handled as sent, in order, none twice, and all of them by the time the client takes its next |
| Protocol.ReadyMeansComplete | host/library/device.cpp:102-128 | a polling client is told READY if and only if its latest request is handled and the library is done with it; the response area then begins with the complete response; the size read back is its length if and only if no digit is left behind the message |
| Protocol.ReceivedIsResponse | host/module/hl-ioctl.c:102-126 | what the client receives for its j-th request is the j-th response, byte for byte, if and only if that answer was readable; the library leaves the response area alone meanwhile |
| Protocol.ShorterNumberMisread | device/library/response.cpp:322-348 | after an answer of 12345 bytes, a request ALL answered by 9 bytes is read back as 92345 bytes |
| Protocol.MisreadIsReached | device/library/response.cpp:322-348 | from every initial state, a run of two requests that ends with the client about to read 92345 bytes of a response of 9 |
| Protocol.Exchange | host/library/device.cpp:98-117 | a request, the library's turn and a poll, with nothing in between: the client goes on to read the number that the message and the buffer's old digits spell, and the answer counts as readable if no digit is left |
| Protocol.ReadsAreSteps | host/module/hl-response.c:100-144 | undisturbed, the sector reads of a response give the client exactly the size announced of the response unit, if and only if the unit is long enough for the last sector |
| Protocol.LossExactly | device/module/linux-4.4.213-usb-gadget.diff:809-827 | a request is lost if and only if the flag is cleared after having been read as down and raised since |
| Protocol.AnyRequestCanBeLost | device/module/linux-4.4.213-usb-gadget.diff:809-827 | from every initial state, every command can be |
| Protocol.LostForever | host/library/device.cpp:102-109 | after a loss the client polls for ever and nothing more is handled or received |
| Protocol.NoRaceNoLoss | device/module/linux-4.4.213-usb-gadget.diff:809-827 | if no request is raised between the two steps of a REQUEST, none is lost |
| Protocol.RequestIsAnswered | device/library/response.cpp:223-237 | a polled request neither lost nor about to be is handled and announced by the library's own next steps, whatever the response |
| Protocol.TurnIsSteps | device/library/device.cpp:43-60 | a turn of the library's loop that finds a request is a run of the protocol, from the flag to the announcement; the blocks it writes come to commit_response's file |
| Ioctl.CommandUnit.Write | device/module/linux-4.4.213-usb-gadget.diff:171-176 | a write to the command unit replaces its first sector and raises server_request |
| Ioctl.CommandUnit.Request | device/module/linux-4.4.213-usb-gadget.diff:809-827 | undisturbed, flag and answer follow the protocol's two library steps |
| Ioctl.DeviceLibrary.HandleCommand | device/library/decode.cpp:74-88 | the command is the sector's first line; the temporary files are those after its request, and the response unit gets the answer |
| Ioctl.DeviceLibrary.Turn | device/library/device.cpp:43-60 | command sector, flag and response unit follow the protocol's turn, with the answer that the log and the earlier requests give as its response |
| Ioctl.HostModule.SendRequest | host/module/hl-ioctl.c:82-90 | request_buffer, command sector and flag follow the protocol's Send and Raise; what the text does not cover of the buffer is sent along |
| Ioctl.HostModule.CheckResponseReady | host/module/hl-ioctl.c:92-100 | request_buffer follows the protocol's Poll and is copied to the client |
| Ioctl.Client.Ask | host/library/device.cpp:98-100 | the client's request reaches the command unit as the protocol's Send and Raise |
| Ioctl.Client.Check | host/library/device.cpp:106-111 | what the client does next is what the protocol's Poll says |
| Ioctl.Client.Receive | host/module/hl-ioctl.c:102-126 | READRESPONSE follows the protocol's sector reads: the client gets the bytes they receive |
| ReadyMessage.StoulReads | host/library/device.cpp:43-50 | a number is read as itself, with or without a plus; with a minus it wraps; without digits there is an exception |
| ReadyMessage.HostReads | host/library/device.cpp:34-50 | after a message for n, whatever follows it: ready, and the number spelled by its digits and those right behind it, or an exception from 64 bits on |
| ReadyMessage.ReadyRoundTrip | device/library/response.cpp:322-348 | over any old sector the host reports ready, and reads back n if and only if no old digit comes right after the message, or n and those digits are zero |
| ReadyMessage.StaleDigitsExample | device/library/response.cpp:342-348 | 9 bytes published over READY 12345 are read as 92345 |
| ResponsePath.CommitResponse | device/library/response.cpp:299-319 | the response unit's file begins with the response, padded to whole 128 KB blocks by zeros or the previous block's end; the count is the response's length |
| ResponsePath.PaddingIs | device/library/response.cpp:299-319 | behind the response, each byte of its last block is the byte one block before it, or zero if there is none |
| ResponsePath.ReadResponseFile | host/module/hl-response.c:100-144 | the buffer begins with the first max(1, ceiling of size / 512) sectors and is otherwise unchanged, within size + 4096 bytes; it fails exactly if one of those reads does, as it does beyond the response unit's end, and then holds the sectors before that read |
| ResponsePath.GetResponse | host/module/hl-ioctl.c:102-126 | the caller gets exactly size bytes: the device's first ones if every read succeeds, and those before the first that fails otherwise |
| ResponsePath.SendResponse | device/library/response.cpp:223-237 | the response path is the identity, for every response and every old file |
| LogDump.RemoveNullChars | device/library/response.cpp:22-36 | the trimmed buffer begins with every byte that is not NUL, unchanged, once and in order, as many as reported, and is unchanged behind them |
| LogDump.TrimsExactly | device/library/response.cpp:22-36 | there is exactly one such text |
| LogDump.NextChunk | device/library/response.cpp:97-105 | a read, full or short, and what is written for it |
| LogDump.DumpWindow | device/library/response.cpp:94-112 | the loop writes the trimmed buffer of every read, one for each read |
| LogDump.BuffersMean | device/library/response.cpp:94-112 | which reads the loop makes, short ones included: each begins within the window where the one before it ended, and is over what that left in the buffer; they stop when the window has been read or nothing is delivered |
| LogDump.DumpLog | device/library/response.cpp:39-112 | windows of 100 MB and more are refused and leave the response file alone; of others the response is every byte, but for NULs, of the buffers trimmed, one for each read |
| LogDump.ChunkedTrimIsWholeTrim | device/library/response.cpp:94-112 | with full reads the dump of a window takes one read for each 128 KB begun, and is every byte of the window that is not NUL, unchanged and in order, if and only if the log is NUL from the window's end to its last chunk's |
| LogDump.ShortReadRepeats | device/library/response.cpp:98-105 | a short read at the end of the file writes the previous chunk's end once more |
| Answering.Responder.constructor | device/library/main.cpp:27-29 | compression, temporary files and response unit as given |
| Answering.Responder.Make | device/library/response.cpp:39-221 | the temporary response file becomes what the request is for: the window's non-NUL bytes, or its lines that contain the key; a refused window leaves it alone |
| Answering.Responder.Commit | device/library/response.cpp:223-319 | the temporary file, packed anew if compression is on, is at the start of the response unit and its length is returned; with no such file the unit is left alone and the length is zero |
| Answering.Responder.Serve | device/library/decode.cpp:36-72 | a request handled and read back: the host gets exactly what the request is for, packed if compression is on, or after a refusal the file from before |
| Answering.AnswerIsLatest | device/library/response.cpp:223-237 | over every sequence of requests, the host gets what the latest request not refused is for, on the log as it was then, packed if compression is on; if all were refused, the file from before the library's start, and nothing if there is none |
| Answering.MadeMeets | device/library/response.cpp:39-221 | what a request makes is what it is for, and it makes nothing if and only if it is for a dump of 100 MB or more |
| Answering.RefusedRepeats | device/library/response.cpp:47-51 | a refused request is answered like the request before it |
| Bytes.WindowBytes | device/library/response.cpp:42 | the window's length: end - start, or what 64 bits make of it if end is before start |
| LogFilter.ReadExactly | device/library/response.cpp:207-216 | line i is read if and only if it is the first or the lines before it, newlines not counted, are shorter than the window |
| LogFilter.LineAt | device/library/response.cpp:207-216 | line i begins where the lines before it, newlines counted, end |
| LogFilter.LinesAreText | device/library/response.cpp:207 | nothing of the text is outside its lines |
| LogFilter.EveryLineBegunIsRead | device/library/response.cpp:214-215 | every line that begins before start + bytes is read |
| LogFilter.ContainsMeans | device/library/response.cpp:209 | a line is kept if and only if the key occurs somewhere in it |
| LogFilter.LinesOfUnlines | device/library/response.cpp:209-211 | written lines are read back as they were |
| LogFilter.OutputIsKeptLines | device/library/response.cpp:205-216 | the output, read line by line, is given by an increasing sequence of indices of the lines read: those of all lines that contain the key and no others |
| LogFilter.GetLine | device/library/response.cpp:207 | the next line, and the rest of the file behind its newline |
| LogFilter.FilterLog | device/library/response.cpp:187-221 | for all 64-bit offsets: the response is, each ended by a newline, the lines of the log from start on that contain the key and are the first, or have lines shorter than the window before them; so every line with the key that begins before end is in it; the count is theirs |

## Left out

- Integer widths, where the code cannot reach them in any plausible run: `head`, `tail` and offsets are unbounded
  (64-bit in the code), `consumed` of the event buffer is unbounded (int). The wrap-around of the dump window and of
  the READY size is modelled.
- BioWrite.UsbWriter.Write: a page's bytes are taken when it is added to a request, in `HostDevice` too, where each page
  is taken whole and in order; the code has the device read the ring's memory until the request completes.
  `start <= end` is required: `HostRun.RunSafety` shows it of every window.
- HostRun.RunSafety: usb_write returns in one step of the run (`HostDevice` takes it apart into its pages), and its
  windows count as written whether or not the device succeeded, as in the code; `BioWrite.UsbWriter.Write` says what a
  failure leaves behind.
- HostDevice.PriorityOnDevice: the device takes every request; records lost to a failing device, or written over
  while unflushed (`HostRun.AppendDisturbsExactly` says when they are), are not promised.
- Delivery.PriorityInLog: how the host's block layer cuts requests into WRITE commands is not part of this model; what
  is assumed of it is that the commands' data, in order, is what was sent.
- DeviceRing.FileIsStreamPrefix: the file writes succeed and appends fit, as the code assumes;
  `DeviceRing.SpillIsLost` and `DeviceRing.FullRingIsStuck` show what happens otherwise.
- UsbTransfer.TransferSafety: the lengths requested of the controller are rounded up to its packet size; the bodies
  of `set_bulk_out_req_length` and of the completion handler are not part of this model, so any completion that fits
  the request is allowed. Sense data and CDB parsing are left out; LBA, length and unit are inputs.
- Protocol.ReadyMeansComplete: one client, whose commands are words of at most 511 bytes without NUL or `%` (the host
  module passes them on as a format) and not READY. The response a command yields is arbitrary. The log offsets that
  a request carries are not followed.
- UntrustedString.FieldRoundTrip: `audit_string_contains_control` is not part of the repository and is a parameter.
- Direct calls of `audit_log_n_string` and `audit_log_n_hex` (`host/kernel/linux-5.4.92-host.diff:256-275`): with
  HardLog active both append the hex form.
- EventBuffer.EventBuf.NString: required to stay in the buffer; `EventBuffer.StaysExactly` says which calls do. What a
  write outside the buffer does is not modelled.
- EventBuffer.EventBuf.NHex: the same.
- UntrustedString.LogUntrusted: the same, for the form that the control test chooses.
- EventBuffer.RecordOfRun: a record whose text was exactly ten bytes longer than its room has bytes that were never
  stored, and is only promised its length, by `EventBuffer.EventBuf.End`.
- EventBuffer.EventBuf.End: requires that some call has stored a terminator, as the code's strlen needs, and that
  consumed is within the buffer, as its snprintf and copy need; `EventBuffer.PastTheBuffer` says when it is.
- AuditEnd.AuditLogEnd: requires the same of the event buffer.
- The host's `fs_open` and `fs_write`, an older path that always reads from ring index 0.
- The drain after the flusher's main loop (`host/module/hl-main.c:308-322`), which reduces its indices modulo the ring
  size; run properties are about the main loop.
- The text of records through NUL trimming, end to end: page padding is stale, so it is not the identity.
- The list of priority syscalls, timing, sleeping and scheduling: a wait is a step that is not enabled.
- Memory allocation failures, kernel and file system services, character devices, module setup, cache partitioning.
- Answering.Responder.Serve: pigz is any function of the file's bytes. Which command asks for which request
  (`device/library/decode.cpp:47-71`) is a parameter, and files that cannot be opened, other than a missing temporary
  file, are left out.
- `clear_log`, the stress loops, statistics, debug output, code under `#if 0`.
