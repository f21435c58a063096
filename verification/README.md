# Verification of container-rs

A Dafny model of the parts of `container-rs` whose correctness rests on invariants, with the
proofs beside it. `dafny verify dfyconfig.toml` checks everything.

**The log pipeline.** `LogBuffer` is the shared ring (or, in strict mode, the all-or-error
buffer), `FrameDemux` the incremental and the batch demultiplexer of Docker's multiplexed stream,
`LogSession` the follow session and the one-shot fetch over arbitrary body chunks, `LogReaders`
any number of readers interleaved with the writer, `WakeProtocol` the register-then-check
notification protocol on byte counts, `WakeBytes` that protocol driving the readers of `LogReaders`, `LineReader` the bounded line splitter and its delivery loop, and
`LogWait` the chunk-crossing matcher and the waiting loop. Each incremental form is proved equal
to a whole-stream specification, whatever the chunking.

**The ustar archive.** `UstarField`, `UstarPath`, `UstarHeader` and `UstarArchive` are the
builder, down to the in-place octal digits, against a reader written from the "ustar Interchange
Format" of the `pax` utility in IEEE Std 1003.1. `UstarExtract` is the repository's own reader of
the first entry and what corruption it notices. `HostCopy` and `CopyTo` are the host directory
walk and one complete copy, up to the finished archive, and `CopyContents` says what such an
archive holds, path by path.

**Small concurrent protocols.** `XpcReply` (the two-party reply context), `ExitCode`
(generation-stamped exit codes across restarts) and `Watchdog` (the reaper that is given up after
three failures to start or restart it) are state machines whose theorems hold over every run.

**Text and ports.** `PercentText`, `JsonText`, `Ports`, `Decimal` and `ContainerId`.

Conventions. Byte strings are sequences of integers below 256 and characters are Unicode scalar
values, as in Rust. Lengths and offsets are unbounded: streams, archives and counts are assumed to
stay below 2^64 where the code uses 64-bit numbers, except where wrap-around is stated (the exit
code generation and the id counter). Methods follow the loops and the fields of the code;
specification functions say what they compute; lemmas say what that means. Where a loop body of
the code is long it is a method of its own here.

Promises that do not hold as worded, with the exact condition under which they do:

- Absolute offsets of the ring count every byte only while no single append is longer than the
  limit (`LogBuffer.TailCountsEveryByte`, `LogReaders.TrueOffsetsIff`).
- An end of stream may be reported with bytes unread, when they were appended between a reader's
  two looks (`WakeProtocol.EndOfStreamIsComplete`, `WakeProtocol.EarlyEndOfStream`).
- The visible exit code can be that of an older incarnation. With fewer than 2^64 bumps it is if and
  only if a restart came while a code was visible, or a waiter of the current generation stored the
  code of an incarnation restarted since it looked, and neither a bump nor a current store of the
  latest code came after that (`ExitCode.StaleIff`, `ExitCode.FreshStep`,
  `ExitCode.FailedRestartLeavesStaleCode`). While the last bump belongs to the latest incarnation it
  cannot be (`ExitCode.VisibleCodeIsCurrent`).
- Single-byte changes of a header go unnoticed at two byte positions, both in the checksum field: any
  value in its last byte, and a space in the byte before it (`UstarExtract.CorruptionIsNoticed`).
- A registered id is cleaned up only while the reaper it was written to is alive
  (`Watchdog.EarlierIdsDroppedIff`, `Watchdog.ReaperHoldsSince`). The bound of three lost ids counts
  ids that reached no reaper; it counts neither ids held by a reaper that died later nor ids refused
  once the watchdog is disabled (`Watchdog.AtMostThreeAreLost`).

## Model
| member | source | states |
|---|---|---|
| `LogBuffer.SharedLogBuffer.Append` | src/core/client/docker_log_stream.rs:135-161 | an append keeps the newest `limit` bytes and moves the head by what left, or, in strict mode, refuses exactly what does not fit and changes nothing |
| `LogBuffer.SharedLogBuffer.ReadAt` | src/core/client/docker_log_stream.rs:166-183 | a read copies what is there from the offset or the head on, reports a skip exactly when the offset was evicted, and leaves the rest of the destination alone |
| `LogBuffer.ContentsAfterAppend` | src/core/client/docker_log_stream.rs:147-160 | the contents are the newest `limit` bytes of everything accepted, also after a single append longer than the limit |
| `LogBuffer.TailCountsEveryByte` | src/core/client/docker_log_stream.rs:147-160 | the absolute end offset counts every appended byte if and only if the append is at most `limit` long |
| `LogBuffer.AppendIs` | src/core/client/docker_log_stream.rs:135-161 | both modes in full: strict mode refuses what does not fit and changes nothing, the ring drops the front of a too long append and then its oldest bytes, and the head moves by the bytes that left the ring |
| `LogBuffer.ReadIs` | src/core/client/docker_log_stream.rs:166-183 | a read hands out, from the offset or the oldest byte, as much as there is and fits |
| `FrameDemux.RunAppend` | src/core/client/docker_log_stream.rs:224-285 | cutting the multiplexed stream anywhere changes neither the final demuxer nor the bytes delivered to any stream |
| `FrameDemux.RunHeader` | src/core/client/docker_log_stream.rs:233-252 | header bytes taken in one copy are header bytes taken one by one |
| `FrameDemux.RunPayload` | src/core/client/docker_log_stream.rs:253-281 | payload bytes taken in one slice go to the stream of the frame and nowhere else |
| `FrameDemux.OffenderIff` | src/core/client/docker_log_stream.rs:139-146 | feeding strict buffers overflows if and only if one of the two demultiplexed streams is longer than its room |
| `FrameDemux.OffenderAppend` | src/core/client/docker_log_stream.rs:253-275 | the stream that overflows first is decided by the bytes, not by how they are cut into chunks |
| `FrameDemux.FrameDemuxer.Feed` | src/core/client/docker_log_stream.rs:224-285 | feeding slices equals the byte-at-a-time specification: same demuxer, same buffers, same overflow report, same notification flags |
| `FrameDemux.DemuxUndoesFraming` | src/core/client/docker_log_stream.rs:185-285 | demultiplexing undoes framing for every list of frames, with the last frame cut anywhere |
| `FrameDemux.FrameInBytes` | src/core/client/docker_log_stream.rs:185-285 | in the bytes of the protocol: type 1 goes to standard output, type 2 to standard error, anything else nowhere, the length is big-endian in bytes 4 to 7, and bytes 1 to 3 mean nothing |
| `FrameDemux.OffenderIsFirst` | src/core/client/docker_log_stream.rs:253-275 | the stream that is named is the one whose byte is the first not to fit: everything before it fits both streams |
| `FrameDemux.PartialHeaderIsSilent` | src/core/client/docker_log_stream.rs:233-241 | a header cut short delivers nothing |
| `FrameDemux.DemuxExecStream` | src/core/client/docker_client.rs:1318-1340 | the batch demultiplexer returns exactly what the incremental one delivers, on every byte string, truncated frames and headers included |
| `LogSession.FeedChunks` | src/core/client/docker_log_stream.rs:633-671 | for every chunking of the body the outcome of the session is that of the whole byte string |
| `LogSession.ChunkingIsInvisible` | src/core/client/docker_log_stream.rs:224-285 | two chunkings of one body end in the same demuxer and the same contents, and in the same offsets when no chunk is longer than the limit |
| `LogSession.OffsetsNeedShortChunks` | src/core/client/docker_log_stream.rs:147-160 | without that bound the head offset does depend on the chunking: two bytes into a one-byte ring |
| `LogSession.FollowEqualsBatch` | src/core/client/docker_log_stream.rs:224-285 | while nothing overflows the streaming contents equal the batch contents |
| `LogSession.DrainBuffer` | src/core/client/docker_log_stream.rs:858-872 | draining through a fixed window returns the whole contents |
| `LogSession.FetchLogsOneshot` | src/core/client/docker_log_stream.rs:724-822 | the one-shot fetch returns every byte of both streams if and only if each is within the limit, and otherwise names the stream whose byte first exceeded it, for every chunking |
| `LogReaders.EveryRunKeepsInv` | src/core/client/docker_log_stream.rs:135-183 | in every interleaving of appends and reads the ring is the newest `limit` bytes and each transcript is the stream minus exactly the reported skips |
| `LogReaders.ReadersOnlyMoveForward` | src/core/client/docker_log_stream.rs:904-960 | offsets never go back and consumed bytes stay consumed |
| `LogReaders.ReadersAreIndependent` | src/core/client/docker_log_stream.rs:873-880 | deleting every event of the other readers from a run leaves a reader exactly where it was |
| `LogReaders.KeepingUpSeesEverything` | src/core/client/docker_log_stream.rs:904-960 | a reader never more than `limit` behind sees the whole stored stream in order, which with appends of at most `limit` bytes is the stream as written |
| `LogReaders.OffsetsAreAbsoluteIff` | src/core/client/docker_log_stream.rs:147-160 | stored and written byte counts agree over a run if and only if every append in it was at most `limit` long |
| `LogReaders.TrueOffsetsIff` | src/core/client/docker_log_stream.rs:96-105 | transcripts and offsets are about the true stream if and only if every append was at most `limit` long |
| `LogReaders.LogReader.PollFill` | src/core/client/docker_log_stream.rs:904-949 | one poll: left-over data first, otherwise registration, one read of the shared buffer, then end of stream or pending; only a pending poll stays registered; the warning flag is up exactly when something was skipped |
| `LogReaders.LogReader.Consume` | src/core/client/docker_log_stream.rs:957-960 | consuming moves a prefix of the buffered data into what was taken, never past its end |
| `LogReaders.PollReturnsStream` | src/core/client/docker_log_stream.rs:904-949 | in every run, data is never empty and is the stream right before the new offset; without data the reader has everything, and the end is reported exactly when the stream is over |
| `LogReaders.FillTakesStream` | src/core/client/docker_log_stream.rs:918-935 | a reader with nothing left gets, from its offset or the oldest byte in the ring, everything there is up to its room |
| `LogReaders.RestComesNext` | src/core/client/docker_log_stream.rs:904-960 | after a partly consumed poll the next one hands out exactly the rest, whatever was appended in between |
| `LogReaders.ConsumeTwice` | src/core/client/docker_log_stream.rs:957-960 | consuming in two steps is consuming at once |
| `WakeProtocol.EveryRunKeepsInv` | src/core/client/docker_log_stream.rs:904-949 | the wake-up invariant holds in every interleaving of writer and readers |
| `WakeProtocol.NoLostWakeup` | src/core/client/docker_log_stream.rs:909-947 | a sleeping reader with unread bytes or a finished stream has been notified, or the writer still owes the notification |
| `WakeProtocol.NobodySleepsAfterTheEnd` | src/core/client/docker_log_stream.rs:88-91 | after the final notification nobody is asleep unnotified |
| `WakeProtocol.WriterSteps` | src/core/client/docker_log_stream.rs:88-91 | an append owes a notification, the end owes the last one, and a notification reaches every registered reader and is then no longer owed |
| `WakeProtocol.OwedNotificationWakes` | src/core/client/docker_log_stream.rs:909-947 | after the owed notification a sleeping reader with something to see is notified, and the poll it is woken for hands out data or the end |
| `WakeProtocol.UndisturbedPollIsReady` | src/core/client/docker_log_stream.rs:904-949 | a poll of a stream with unread bytes or at its end is never left pending, and hands out data before the end of stream |
| `WakeProtocol.EndOfStreamIsComplete` | src/core/client/docker_log_stream.rs:936-944 | in every run, an end of stream comes after everything was read if and only if no append happened between the look at the buffer and the look at the flag; the offset does not move, so what was missed stays readable |
| `WakeBytes.StepProjects` | src/core/client/docker_log_stream.rs:633-671 | every step of the system with real bytes, several appends under one lock included, is a step of the protocol on counts or none |
| `WakeBytes.RunProjects` | src/core/client/docker_log_stream.rs:904-949 | every run with real bytes is a run of the protocol on counts |
| `WakeBytes.NoLostWakeupForBytes` | src/core/client/docker_log_stream.rs:909-947 | a sleeping reader has handed on all it copied, and if the stream holds a byte it has not got, or has ended, it has been notified or will be |
| `WakeBytes.NotificationReachesForBytes` | src/core/client/docker_log_stream.rs:88-91 | the same with real bytes: after a notification nobody with something to see sleeps unnotified |
| `WakeBytes.KnowingEndDeliversEverything` | src/core/client/docker_log_stream.rs:936-944 | an end of stream reported after the end flag was up at the first look comes with a transcript up to the end of the stream; without skips every byte was handed on |
| `WakeBytes.UndisturbedPollIsPollFill` | src/core/client/docker_log_stream.rs:904-949 | the steps of a poll in which nobody else acts leave the reader, its registration and the result exactly as `LogReader.PollFill` does |
| `WakeProtocol.EarlyEndOfStream` | src/core/client/docker_log_stream.rs:924-942 | a run in which the end is reported although a byte is unread, and the next poll delivers it |
| `LineReader.ReadLineLimited` | src/core/logs/line.rs:44-113 | for every chunking one read returns and consumes what the chunk-free specification says; it terminates also when a step consumes nothing |
| `LineReader.PieceAdvances` | src/core/logs/line.rs:93-108 | a piece without newline is accumulated, dropped, or cut at exactly the limit |
| `LineReader.SplitIsLossless` | src/core/logs/line.rs:37-43 | cutting at line feeds loses nothing |
| `LineReader.ReadTakesFirstFrame` | src/core/logs/line.rs:19-35 | a read takes the first frame off the stream, or finds there is none |
| `LineReader.FrameOf` | src/core/logs/line.rs:37-43 | a delivered frame is never longer than the limit |
| `LineReader.DeliverLines` | src/core/logs/line.rs:130-152 | every consumer receives exactly one frame per line of the stream, in order, and one for an unterminated last line unless the stream broke |
| `LineReader.TerminatedLine` | src/core/logs/line.rs:44-120 | a line within the limit arrives without its line feed and at most one carriage return before it, a longer one as its first `limit` bytes, and the whole line is consumed |
| `LineReader.UnterminatedLine` | src/core/logs/line.rs:44-120 | the same at the end of the input; nothing left is the end, and a broken stream an error |
| `LineReader.FramesOfLines` | src/core/logs/line.rs:130-152 | a stream given line by line has one frame for each line and one for a nonempty rest |
| `LineReader.FrameIs` | src/core/logs/line.rs:116-120 | a frame is the line without one carriage return, or its first `limit` bytes |
| `LogWait.OccurrencesCountPositions` | src/core/wait/log_strategy.rs:195-199 | the count is the number of positions at which the pattern stands, overlaps included |
| `LogWait.OccurrencesAcross` | src/core/wait/log_strategy.rs:195-199 | matching across a cut needs only the last pattern-length-minus-one bytes before it |
| `LogWait.StreamMatcher.Feed` | src/core/wait/log_strategy.rs:215-232 | after any chunks the count equals the occurrences in their concatenation |
| `LogWait.CollectedLogs.Push` | src/core/wait/log_strategy.rs:49-63 | the diagnostic buffer is the last 1 MiB delivered |
| `LogWait.OnePass` | src/core/wait/log_strategy.rs:145-166 | one pass sums, over all readers, the occurrences in everything each has delivered |
| `LogWait.WaitUntilReady` | src/core/wait/log_strategy.rs:116-192 | the loop stops at the first pass that decides: a read error, enough occurrences, or no progress by a finished container a grace period after that was first so, and then reports exactly the collected bytes |
| `LogWait.VerdictIs` | src/core/wait/log_strategy.rs:145-190 | a pass decides: a read error first, then enough places at which the message stands, then the end two seconds after the container was first over without progress, with the last mebibyte delivered |
| `LogWait.TotalCountsMatches` | src/core/wait/log_strategy.rs:145-166 | the total is the number of places, in all readers together, at which the message stands |
| `LogWait.DeliveredIs` | src/core/wait/log_strategy.rs:148-165 | what is delivered are the bytes of the successful reads, in order |
| `UstarField.WriteOctal` | src/core/client/docker_tar.rs:64-71 | in-place digits are the octal digits of the value and a NUL, and nothing else in the block changes |
| `UstarField.WriteChksum` | src/core/client/docker_tar.rs:74-82 | in-place checksum field: six octal digits, a NUL and a space |
| `UstarField.ParseOctal` | src/core/client/docker_tar.rs:85-118 | the parsing loop stops at NUL or space, rejects other bytes, and refuses what overflows |
| `UstarField.NumberFieldRoundTrip` | src/core/client/docker_tar.rs:64-100 | a number within its digits reads back as itself |
| `UstarField.ParseIs` | src/core/client/docker_tar.rs:84-118 | every field: the value of its leading octal digits if a NUL, a space or the end follows and it is not too large, an error otherwise |
| `UstarField.OctalIs` | src/core/client/docker_tar.rs:64-71 | the digits written are the characters 0 to 7 and stand for the number |
| `UstarField.ChecksumFits` | src/core/client/docker_tar.rs:227-229 | a header byte sum is always below 8^6, so the checksum always reads back |
| `UstarPath.SplitUstarPath` | src/core/client/docker_tar.rs:125-177 | the loop over all slashes finds the first legal cut |
| `UstarPath.SplitIsBest` | src/core/client/docker_tar.rs:120-124 | a split rejoins to the path, respects both bounds, has the longest possible name, and keeps a directory's trailing slash in the name |
| `UstarPath.SplitFailsOnlyWhenImpossible` | src/core/client/docker_tar.rs:165-170 | a nonempty path without NUL is refused if and only if there is no way to store it |
| `UstarPath.SplitRefusals` | src/core/client/docker_tar.rs:125-177 | each refusal of a path has its own reason: empty, a NUL in it, or no way to store it |
| `UstarHeader.HeaderReadsBack` | src/core/client/docker_tar.rs:204-232 | a reader of the format finds in a header what it was built from, the mode reduced to its permission bits |
| `UstarHeader.ChecksumReadsBack` | src/core/client/docker_tar.rs:227-229 | the stored checksum is the sum of the header with the field blanked |
| `UstarHeader.HeaderLayout` | src/core/client/docker_tar.rs:180-233 | every byte range of the header, at the offsets of the format: name, mode, owner, size, a modification time of zero, type, magic, version, prefix, and zeros in between |
| `UstarHeader.ChecksumLayout` | src/core/client/docker_tar.rs:227-229 | the checksum is the byte sum with its own field as spaces, in six octal digits, a NUL and a space |
| `UstarArchive.BuildHeader` | src/core/client/docker_tar.rs:204-229 | the in-place field writes produce exactly the specified header block |
| `UstarArchive.UstarBuilder.AppendHeader` | src/core/client/docker_tar.rs:180-232 | refusals in order: uid, gid, size, path; a refusal leaves the buffer alone |
| `UstarArchive.UstarBuilder.AppendDirectory` | src/core/client/docker_tar.rs:267-289 | a directory entry is added or refused; refused for size it stays in the buffer |
| `UstarArchive.UstarBuilder.AppendFile` | src/core/client/docker_tar.rs:296-337 | a file entry is added or refused before anything is written, and the limit is kept |
| `UstarArchive.UstarBuilder.Finish` | src/core/client/docker_tar.rs:340-344 | a finished archive is whole blocks, at most 64 MiB, ends in 1024 zero bytes, and reads back as all entries in order |
| `UstarArchive.ArchiveReadsBack` | src/core/client/docker_tar.rs:235-345 | the round trip for every sequence of entries |
| `UstarArchive.EntryLayout` | src/core/client/docker_tar.rs:267-336 | one entry in bytes: a header with type, size, mode and owner, then the data, then zeros up to whole blocks of 512 |
| `UstarArchive.ArchiveLayout` | src/core/client/docker_tar.rs:340-345 | the entries one after the other and 1024 zero bytes at the end |
| `UstarArchive.HeaderRefusals` | src/core/client/docker_tar.rs:189-216 | each refusal of a header has its own reason: numbers of more than seven or eleven octal digits, in order, then the path |
| `UstarExtract.ParseFirstRegularFile` | src/core/client/docker_tar.rs:369-416 | the method takes the branches of the specification function |
| `UstarExtract.FirstOfArchive` | src/core/client/docker_tar.rs:363-416 | a file comes back byte for byte, a directory and an empty archive are named as such; only a stored name that starts like gzip data is mistaken |
| `UstarExtract.CutFile` | src/core/client/docker_tar.rs:372-416 | an archive cut off inside its first file: below 512 bytes the header is missing, below the last data byte the data is, and from there on the file is returned in full |
| `UstarExtract.AnswersAre` | src/core/client/docker_tar.rs:369-416 | for all bytes, each answer has its own reason, and a file is exactly the bytes the size field promises right behind the header |
| `UstarExtract.CorruptionIsNoticed` | src/core/client/docker_tar.rs:394-401 | any single changed header byte makes extraction fail, except the last checksum byte and a space in place of the NUL before it, which change nothing |
| `UstarExtract.ChangedChksumField` | src/core/client/docker_tar.rs:103-118 | a changed checksum field still reads as the sum if and only if the change is one of those two |
| `HostCopy.AppendHostDirectory` | src/runners/async_runner.rs:1007-1070 | the walk terminates, and its result and the exact sequence of entries it adds are those of the visits in walk order, up to the first refusal: the children of a directory last to first, then what is below its directories first to last |
| `HostCopy.AddChild` | src/runners/async_runner.rs:1026-1066 | one child: refused in the order the code looks, or one entry, and for a directory one more item on the stack |
| `HostCopy.RemainingChild` | src/runners/async_runner.rs:1026-1054 | looking at one child with a last-in first-out stack makes exactly its visit and leaves all others, in order |
| `HostCopy.VisitedIff` | src/runners/async_runner.rs:1041-1066 | visits succeed if and only if every node is clean, every entry can be written and the archive stays within the limit; then exactly their entries were added |
| `HostCopy.RefusalHasCause` | src/runners/async_runner.rs:1041-1066 | a refusal has its cause: a node refused for just that, an entry that cannot be written for just that, or entries that are too big |
| `HostCopy.TreeRefusals` | src/runners/async_runner.rs:1026-1058 | each refusal of a node has its own reason: an unreadable name, a link, a special file, or more than 64 MiB |
| `HostCopy.AddResultOrder` | src/core/client/docker_tar.rs:268-330 | a directory is refused for its header before its size, a file for its size before its header |
| `HostCopy.ListedIs` | src/runners/async_runner.rs:1023-1040 | visit number k of a listing is child number k from the end, at the directory's path, a slash and its name |
| `HostCopy.VisitsCoverTree` | src/runners/async_runner.rs:1007-1070 | the visits of a tree are exactly one per node, and all are clean if and only if the tree holds nothing but regular files and directories with readable names and no oversized file |
| `HostCopy.VisitsAfterParents` | src/runners/async_runner.rs:1007-1070 | in walk order every entry comes after the entry of its parent directory |
| `HostCopy.ParentOfUnder` | src/runners/async_runner.rs:1036-1040 | the parent of a walked path is the directory that was listed |
| `CopyTo.TargetAcceptedIff` | src/runners/async_runner.rs:1076-1110 | exactly the absolute paths without trailing or doubled slash, final dot or upward step are accepted |
| `CopyTo.TargetRefusals` | src/runners/async_runner.rs:1076-1110 | each refusal of a target has its own reason, in the order the code looks |
| `CopyTo.AppendAncestorDirectories` | src/runners/async_runner.rs:981-1004 | the result and the entries are those of one directory per proper prefix of the target, outermost first, up to the first refusal |
| `CopyTo.AncestorsInOrder` | src/runners/async_runner.rs:981-1004 | every ancestor comes after its own parent, and the last one is there |
| `CopyTo.TargetHasParent` | src/runners/async_runner.rs:981-1004 | the target sits right under its last ancestor |
| `CopyTo.CopyToSource` | src/runners/async_runner.rs:1074-1157 | the result is exactly that of the checks, the ancestors, the source in walk order and the trailer; on success the archive holds exactly these entries in order, reads back as them and is within the limit |
| `CopyTo.CopiedIff` | src/runners/async_runner.rs:1074-1157 | a copy succeeds if and only if the target is accepted, the source is clean, every entry can be stored and the archive with its trailer is within the limit |
| `CopyTo.RefusedCopy` | src/runners/async_runner.rs:1074-1157 | a failing copy has its cause: an unclean source, a header refused for just that reason, or an archive that is too big |
| `CopyTo.CopyVisitsAre` | src/runners/async_runner.rs:1110-1154 | the entries of a copy are exactly the ancestors and one entry per source node |
| `CopyTo.CopyParentsFirst` | src/runners/async_runner.rs:1110-1154 | every entry of a copy comes after the entry of its parent directory, the target's ancestors included |
| `CopyContents.CopyHolds` | src/runners/async_runner.rs:1110-1154 | a copy holds exactly, and each path once: every ancestor of the target with mode 0o755, and for every file and directory at or below the source one entry with its own path, data, mode and owner |
| `CopyContents.FileCopied` | src/runners/async_runner.rs:1138-1153 | a single file is the last entry, at the target with its bytes, mode and owner |
| `CopyContents.ParentsComeFirst` | src/runners/async_runner.rs:1110-1154 | spelled out on paths: whatever lies in a directory comes after the entry of that directory |
| `CopyContents.CleanIff` | src/runners/async_runner.rs:1041-1058 | a source is clean if and only if it contains no link, no special file, no file over 64 MiB and no unreadable name |
| `CopyContents.RefusedSource` | src/runners/async_runner.rs:1041-1058 | a refusal about the source names what is there, somewhere at or below it |
| `XpcReply.EveryScheduleKeepsInv` | src/xpc_bridge.c:64-117 | the ownership invariant holds in every schedule of reply block, waiter and timeout |
| `XpcReply.FreedExactlyOnce` | src/xpc_bridge.c:70-117 | no access after free, exactly one free, and the retained reply is handed to the caller or released, never both and never neither |
| `XpcReply.ReplyReachesTheWoken` | src/xpc_bridge.c:94-117 | at the end the caller holds a reply if and only if it was woken and there was one; after a timeout a reply was released instead |
| `XpcReply.NextStepsAre` | src/xpc_bridge.c:70-117 | which steps are possible is told by the steps taken: each party goes through its own in order and once, and a signal can be consumed until the waiter gives up |
| `XpcReply.NothingAfterUnref` | src/xpc_bridge.c:70-76 | after dropping its reference a party only disposes of the context, and only as the last one |
| `XpcReply.AlwaysFinishes` | src/xpc_bridge.c:91-117 | schedules are finite and never stuck |
| `ExitCode.WaitState.StoreIfCurrent` | src/core/containers/async_container.rs:95-102 | a code is recorded only for the current generation |
| `ExitCode.WaitState.Bump` | src/core/containers/async_container.rs:105-109 | a bump starts a new generation and clears the code |
| `ExitCode.StoreAcceptedIff` | src/core/containers/async_container.rs:95-102 | in every schedule of fewer than 2^64 bumps, what a waiter stores becomes visible if and only if no bump lies between the step that gave it its generation and the store |
| `ExitCode.EveryScheduleKeepsInv` | src/core/containers/async_container.rs:518-598 | the generation invariant holds in every schedule of restarts, waits and stores |
| `ExitCode.VisibleCodeIsCurrent` | src/core/containers/async_container.rs:855-908 | a visible code was stored by a waiter of the current generation, is no older than the last bump, and is that of the latest incarnation while the last bump belongs to the latest incarnation |
| `ExitCode.StateIsHistory` | src/core/containers/async_container.rs:518-598 | a visible code is the value some wait returned, for the incarnation that was the latest then, stored since by that waiter and hidden by no bump |
| `ExitCode.NextStepsAre` | src/core/containers/async_container.rs:518-598 | which steps are possible is told by the steps taken: exits and restarts in turn, and one bump or failure for each restart |
| `ExitCode.FreshStep` | src/core/containers/async_container.rs:671-735 | the code visible after a step is outdated if and only if the step is a restart with a code visible or a current waiter storing the code of a superseded incarnation, or it was outdated before and the step is neither a bump nor a current waiter storing the latest code |
| `ExitCode.StaleIff` | src/core/containers/async_container.rs:671-735 | over whole schedules of fewer than 2^64 bumps an outdated code is visible at the end if and only if some step brought that about and no step since ended it |
| `ExitCode.FailedRestartLeavesStaleCode` | src/core/containers/async_container.rs:671-735 | a restart that fails after the container came up, before its bump, leaves the old code visible |
| `Watchdog.Registry.Register` | src/watchdog.rs:56-118 | a registration reaches the live or a fresh reaper, or counts one failure |
| `Watchdog.StepKeepsInv` | src/watchdog.rs:56-118 | a valid registration either writes the id to the current reaper or raises the failure count by exactly one, unless it is at three |
| `Watchdog.RegistrationIs` | src/watchdog.rs:56-118 | what each registration does: into the open pipe behind the others, alone into a new reaper at the first or second attempt, or one more failure |
| `Watchdog.EveryRunKeepsInv` | src/watchdog.rs:41-53 | in every run the failure count is the number of valid ids that no reaper held when their registration returned, and three is final |
| `Watchdog.AtMostThreeAreLost` | src/watchdog.rs:41-53 | before the watchdog is disabled at most three ids reach no reaper, a live reaper means fewer, and the warning is given once, exactly when three are |
| `Watchdog.ReaperHoldsSince` | src/watchdog.rs:56-118 | after any run the reaper holds exactly the valid ids registered since the last call that could not use an open pipe, that call included, or there is no reaper |
| `Watchdog.NoReaperWithoutNeed` | src/watchdog.rs:66-82 | before the first such call there is no reaper |
| `Watchdog.EarlierIdsDroppedIff` | src/watchdog.rs:88-110 | a registration loses earlier ids if and only if it finds the pipe dead, unless it rewrites the only one |
| `PercentText.PercentEncode` | src/core/client/docker_client.rs:1295-1311 | the loop emits the specified text |
| `PercentText.DecodeUndoesEncode` | src/core/client/docker_client.rs:1295-1311 | percent-decoding, which accepts only unreserved characters and triplets, undoes it for every byte string |
| `PercentText.EncodedByteIs` | src/core/client/docker_client.rs:1295-1311 | every byte in the unreserved ranges of RFC 3986 is itself, every other one a percent sign and two upper-case hexadecimal digits |
| `PercentText.EncodedAppend` | src/core/client/docker_client.rs:1295-1311 | bytes are encoded one after the other |
| `JsonText.EscapeJsonValue` | src/core/client/docker_client.rs:1557-1573 | the loop emits the specified escapes |
| `JsonText.EscapeJson` | src/core/client/docker_client.rs:1576-1582 | quotes around the escaped value |
| `JsonText.StringRoundTrip` | src/core/client/docker_client.rs:1557-1582 | a reader by section 7 of RFC 8259 returns the original string and stops right behind it, whatever follows |
| `JsonText.JsonArray` | src/core/client/docker_client.rs:1501-1511 | the array writer emits the specified text |
| `JsonText.JsonObject` | src/core/client/docker_client.rs:1513-1525 | the object writer emits the specified text |
| `JsonText.JsonRoundTrip` | src/core/client/docker_client.rs:1501-1525 | arrays and objects read back as exactly their members, in order |
| `JsonText.EscapeCharIs` | src/core/client/docker_client.rs:1557-1582 | what each character becomes, in character codes |
| `JsonText.EscapedIs` | src/core/client/docker_client.rs:1557-1582 | a string is its escaped characters in quotation marks, in order |
| `JsonText.JsonIs` | src/core/client/docker_client.rs:1501-1525 | brackets or braces, commas between the members, and name, colon and value in an object |
| `Ports.RejectDuplicateMappedPorts` | src/core/containers/request.rs:369-383 | accepts if and only if container ports are pairwise distinct, and names the first clash |
| `Ports.AllocateUniqueFreeHostPort` | src/core/client/container_cfg.rs:60-73 | returns the first new port among at most 64 draws, or fails |
| `Ports.FirstNewIsFirst` | src/core/client/container_cfg.rs:60-73 | the draw taken is the first one that is not taken, provided it comes within the tries and all before it worked |
| `Ports.BuildPorts` | src/core/client/container_cfg.rs:155-217 | SCTP first, then repeated container ports, then the mapped ports and the missing exposed ports configured one by one in order |
| `Ports.ServedInOrder` | src/core/client/container_cfg.rs:60-73 | each request is served from where the last one stopped drawing: the first of at most 64 draws that no earlier request got |
| `Ports.BuiltPorts` | src/core/client/container_cfg.rs:155-217 | on success host ports and container ports are pairwise distinct, exactly the mapped and exposed ports are there, explicit host ports are kept and all others come from draws that were made |
| `Ports.ConfigureFailsIff` | src/core/client/container_cfg.rs:174-189 | a host port clash happens if and only if an explicit host port was given to an earlier mapping, by request or by a draw made for it; an allocation failure if and only if some allocation finds no new port |
| `Ports.ExplicitOnly` | src/core/client/container_cfg.rs:183-189 | with explicit host ports only, the outcome is the mappings themselves or, exactly when two host ports are equal, a clash |
| `Ports.MergeExposed` | src/runners/async_runner.rs:519-527 | exposed ports without a mapping are added with host port 0, nothing else |
| `Ports.KeyIsInjective` | src/core/client/docker_client.rs:1418-1422 | different container ports have different keys |
| `Ports.KeyIs` | src/core/client/docker_client.rs:1418-1422 | a key is the decimal number, a slash and the protocol, letter by letter |
| `Decimal.TextReadsBack` | src/core/client/docker_client.rs:1418-1422 | the decimal text of a number stands for it and has no leading zero |
| `Ports.BuildPortBindings` | src/core/client/docker_client.rs:1415-1432 | the loop inserts the mappings one by one |
| `Ports.NothingLostIff` | src/core/client/docker_client.rs:1415-1432 | the binding map loses a mapping if and only if two mappings name one container port |
| `Ports.LinuxBindings` | src/runners/async_runner.rs:507-527 | duplicates are refused, or every mapping and every exposed port reaches Docker |
| `ContainerId.IsValidContainerId` | src/core/util.rs:30-41 | the byte scan decides the name rule |
| `ContainerId.NameValidIs` | src/core/util.rs:30-41 | the name rule in character codes |
| `ContainerId.GeneratedIdIs` | src/runners/async_runner.rs:72-87 | process id, clock value and counter can be read off an id |
| `ContainerId.Counter.UniqueSuffix` | src/core/util.rs:8-16 | one suffix per counter value |
| `ContainerId.GeneratedIdIsValid` | src/runners/async_runner.rs:72-87 | every generated id satisfies the name rule, for all process ids, clock values and counters |
| `ContainerId.LongestIdIsJustValid` | src/core/util.rs:24-34 | the largest generated id has exactly the 63 characters that are allowed |
| `ContainerId.IdsDiffer` | src/core/util.rs:3-16 | ids from different counter values differ, whatever the clock did |
| `ContainerId.CounterRepeatsAfterFullTurn` | src/core/util.rs:8-16 | the counter has the same value for two ids of a process if and only if a multiple of 2^64 calls lies between them |
| `ContainerId.IdsOfOneProcessDiffer` | src/core/util.rs:3-16 | two ids of one process differ, whatever the clock did, unless a multiple of 2^64 calls lies between them |

## Left out
- Sockets, HTTP decoding, XPC calls, pipes, threads, clocks and process creation: parameters, oracles or nondeterministic steps.
- JSON reading, registry authentication, image resolution, health and exit strategies, builders, accessors and error texts: thin wrappers or flat case distinctions.
- WakeProtocol: one poll is four atomic steps; task scheduling and wakers are not modelled, only whether a registration was notified.
- WakeBytes.NoLostWakeupForBytes: the limit of the buffer is positive, as it always is.
- LogReaders.LogReader.PollFill: nobody else acts during the call, so the end flag is a parameter; the steps in between are in WakeBytes.
- The synchronous reader: it makes the same two looks as the asynchronous one; its 50 ms parking loop is not modelled.
- The one-shot readers around the fetch, which only hand out its result piece by piece.
- LogSession.FeedChunks: the state of the buffers after a refused chunk is not specified, because every caller gives up on them.
- HostCopy.AppendHostDirectory: the host tree is a value that does not change during the walk, with the children of each directory already in the order of the sort by name; read errors are not modelled. The lemmas about what the walk adds take names to be nonempty and without slashes, as every file system does.
- CopyTo.CopyToSource: one source and one archive; the upload itself and the loop over sources are left out.
- UstarField.ParseOctal: one method stands for the 64-bit and the 32-bit parser, which differ only in the largest value.
- UstarExtract.FirstOfArchive: names are byte strings, so the gzip test can hit a name; valid UTF-8 names never start that way.
- XpcReply: the branches in which the context or its semaphore cannot be allocated, which return before anything is shared; the memory-order annotations, since steps are sequentially consistent.
- ExitCode: the exit codes themselves are arbitrary; log refresh and rollback after a failed restart only appear as the step that abandons the bump.
- Watchdog: registrations are serialized by the mutex and therefore atomic; the reaper script is not modelled.
- Ports.BuildPorts: ports are unbounded numbers, and drawn ports are arbitrary values of an oracle.
- LineReader.DeliverLines: consumers only record what they receive.
- LogWait.WaitUntilReady: the outer startup timeout; a script of passes that ends leaves the loop waiting.
