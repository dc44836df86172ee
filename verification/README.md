# sandboxwich: verified model

Sandboxwich runs sandboxes: a guest agent supervises processes under leases, streams their output
and archives compiler caches, and an API server hands out work, answers retried requests once,
pages through tables, limits tenants and stops idle sandboxes. This project models the parts of
both whose correctness depends on whole runs or on byte-exact formats, and proves what their code
and documentation promise.

`dafny verify dfyconfig.toml` checks every file.

## Layout

| file | what it models |
|---|---|
| `ByteStrings.dfy`, `Sorting.dfy` | byte strings, their order, sorting by a strict order |
| `Utf8Stream.dfy` | lossy UTF-8 decoding in one shot and in chunks (section 4 of RFC 3629; section 3.9 of the Unicode Standard) |
| `TarHeader.dfy` | the 512-byte header of the ustar Interchange Format (pax utility, IEEE Std 1003.1), written and read |
| `ArchivePath.dfy`, `TarArchive.dfy` | canonical archive paths; the archive parser |
| `CacheTree.dfy`, `Capture.dfy` | walking a cache directory; the checks, the merge loop and the printed tar |
| `Staging.dfy`, `Restore.dfy` | extraction, the check and the sync order of the staging tree; restore as a whole |
| `RoundTrip.dfy` | capture followed by restore |
| `ResidentLease.dfy` | the resident-process handler beside its lease-renewal task |
| `SterileLauncher.dfy` | the one-shot activation cell and its runner |
| `Idempotency.dfy` | requests, rows, processing lease and sweeper |
| `Base64Url.dfy`, `Pagination.dfy` | cursors, pages and traversals |
| `TenantLimits.dfy` | fixed-window counters |
| `Reaper.dfy` | throttled activity, deadlines, the sweep and its progress |
| `Supervisor.dfy` | the bounded task supervisor |
| `ObservationSink.dfy` | the batched metrics sink |

## How to read it

- Loops and objects that change in place are methods and classes, each proved against a function
  or a relation that does not mention the loop: the parser against the set of all readings of a
  byte string, the merge loop against insertion into a sorted list, extraction against the set of
  files, the decoder against one-shot decoding.
- Protocols between concurrent tasks are state machines over values. A run is any list of actions;
  an action carries what the outside world decided (a request failed, a statement reported an
  error but was applied, the child exited, the clock moved). The lease and launcher models log what
  was sent, acknowledged and started, and a log is lawful when each entry satisfies an obligation
  stated only over the entries before it.
- Strings are byte sequences. Instants and durations are integers: nanoseconds for the limits,
  seconds elsewhere.
- Parameters: the compressor and the decompressor (which delivers its output in pieces), the
  digest, the identity's JSON schema, the directory enumeration order, request outcomes, clocks.

## Where the code does not do what one might expect

- Capture accepts a backslash in a file name and restore refuses it. `RoundTrip.CaptureThenRestore`
  gives the exact condition and `RoundTrip.BackslashIsNotRestored` an archive that is lost.
- Capture compares the running total with its bound only inside the loop over files, so an
  oversized identity with no files passes and cannot be restored
  (`RoundTrip.OversizedIdentityIsNotRestored`, `RoundTrip.BracesAreNotRestored`). With the shipped
  limits it cannot happen (`RoundTrip.IdentityBoundSuffices`, `RoundTrip.ShippedLimits`).
- The bound on the decompressed tar checks only its last addition; the overhead for the entries can
  wrap around. `Restore.TarLimit` computes it as a release build does, and the round trip's
  condition compares the tar with the result.
- Completing and abandoning an idempotency row match on tenant, key and state, not on the owner.
  The safety theorem therefore assumes, as the source says, that no request outlives its lease.
  `Idempotency.EveryOverrunCanBreak` shows that, once a request that has not yet stored or released
  its row is past its lease, a sweep and one more request break the promises.
- A page's cursor resumes after the page only if the last row's timestamp has no separator;
  otherwise the row is sent again (`Pagination.SeparatorRepeatsTheRow`).
- A fixed window lets up to `2 * limit - 1` calls through in an interval one window long, not
  `limit`; the bound is attained.
- The comment on `deadline_from` says it saturates. Only the conversion to a signed 64-bit number
  of seconds visibly does; the addition and chrono's own ranges are not part of this model.
- The sum of a metrics group saturates at 64 bits and is then no longer the sum of its samples;
  `ObservationSink.EveryRunBalances` says exactly when.
- The documentation of the metrics sink says losses are counted. When the writer task ends, the
  channel's contents and its batch are dropped and no counter moves (`ObservationSink.SilentLoss`);
  the balance survives exactly if there was nothing to drop
  (`ObservationSink.BalancedIffNothingHeld`).
- The documentation of the reaper's sweep says a failure on one sandbox is skipped. That holds of
  the stop itself; a row that cannot be read, or egress rules that cannot be loaded for a due
  sandbox, end the whole sweep with an error. What was stopped before goes unreported and the rest
  of the batch is not tried (`Reaper.Sweep`, `Reaper.OneFailureEndsTheSweep`).

## Model

| member | source | states |
|---|---|---|
| `Utf8.ScalarMeaning` | crates/sandboxwich-agent/src/main.rs:3876-3877 | the scanner finds a character of `n` bytes exactly when the first `n` bytes are well-formed by Table 3-7 of the Unicode Standard |
| `Utf8.TruncatedMeaning` | crates/sandboxwich-agent/src/main.rs:3881-3896 | input counts as unfinished exactly when it is a proper prefix of a well-formed sequence |
| `Utf8.BrokenMeaning` | crates/sandboxwich-agent/src/main.rs:3888-3894 | the part replaced at once is a maximal subpart: one unusable byte, or the longest start of a well-formed sequence that goes on wrongly; both directions |
| `Utf8.WellFormedMeans` | crates/sandboxwich-agent/src/main.rs:3876-3881 | the byte table admits exactly the encodings, by bits, of the scalar values of Unicode: nothing overlong, no surrogate, nothing beyond U+10FFFF |
| `Utf8.TextMeans` | crates/sandboxwich-agent/src/main.rs:3876-3881 | a byte string passes the check if and only if it encodes a sequence of scalar values |
| `Utf8.ReplacementIsFffd` | crates/sandboxwich-agent/src/main.rs:3890-3892 | the replacement is the encoding of U+FFFD |
| `Utf8.LossyMeans` | crates/sandboxwich-agent/src/main.rs:3906-3910 | lossy decoding without the scanner: characters are kept, an unfinished end and each maximal subpart that goes on wrongly become U+FFFD |
| `Utf8.LossyIsText` | crates/sandboxwich-agent/src/main.rs:3906-3910 | whatever comes in, well-formed text comes out |
| `Utf8.ValidUpTo` | crates/sandboxwich-agent/src/main.rs:3881-3889 | what a failed check reports: the text before the error, and whether the rest is unfinished or broken and by how many bytes |
| `Utf8.DrainError` | crates/sandboxwich-agent/src/main.rs:3881-3897 | what one turn of the loop emits and keeps, for an unfinished tail and for a broken part |
| `Utf8.DrainThenLossy` | crates/sandboxwich-agent/src/main.rs:3870-3910 | emitting what can be decided and decoding the remainder later equals decoding everything at once |
| `Utf8.DrainKeepsBack` | crates/sandboxwich-agent/src/main.rs:3896-3897 | the remainder is empty or a proper prefix, of at most three bytes, of a well-formed sequence |
| `Utf8.StreamDecoder.constructor` | crates/sandboxwich-agent/src/main.rs:3864-3867 | a new decoder holds nothing |
| `Utf8.StreamDecoder.Push` | crates/sandboxwich-agent/src/main.rs:3870-3904 | the loop emits exactly the decidable text of the kept bytes followed by the chunk and keeps exactly the undecided tail |
| `Utf8.StreamDecoder.Finish` | crates/sandboxwich-agent/src/main.rs:3906-3910 | the tail is decoded lossily and nothing is kept |
| `Utf8.StreamingIsOneShot` | crates/sandboxwich-agent/src/main.rs:3864-3911 | for every input and every way of cutting it into chunks, the pushes and the finish together give the one-shot lossy decoding |
| `Utf8.PendingIsShort` | crates/sandboxwich-agent/src/main.rs:3864-3904 | between pushes the decoder holds nothing or at most three bytes that still start a well-formed sequence |
| `Utf8.TextSurvivesChunking` | crates/sandboxwich-agent/src/main.rs:3864-3911 | well-formed text comes out unchanged however it is cut |
| `TarHeader.OctalRoundTrip` | crates/sandboxwich-agent/src/compiler_cache_archive.rs:928-939 | a number written as a zero-filled octal field is read back |
| `TarHeader.SizeRoundTrip` | crates/sandboxwich-agent/src/compiler_cache_archive.rs:931 | every 64-bit size is read back, in octal or in the base-256 extension |
| `TarHeader.SplitPath` | crates/sandboxwich-agent/src/compiler_cache_archive.rs:930 | a path cut into name and prefix fits the two fields and joins back to the path |
| `TarHeader.SplitPathComplete` | crates/sandboxwich-agent/src/compiler_cache_archive.rs:930 | the cut is found if and only if some slash allows one |
| `TarHeader.HeaderRoundTrip` | crates/sandboxwich-agent/src/compiler_cache_archive.rs:928-939 | a written header has a matching checksum and regular type, and gives back its path and size |
| `TarHeader.HeaderLayout` | crates/sandboxwich-agent/src/compiler_cache_archive.rs:928-939 | every byte of a written header: name, mode 0600, zero owner, group and time, size, checksum, type, magic, prefix and zeros elsewhere |
| `TarHeader.SizeExamples` | crates/sandboxwich-agent/src/compiler_cache_archive.rs:931 | the largest octal size and the smallest binary one, byte for byte |
| `TarHeader.BinarySize` | crates/sandboxwich-agent/src/compiler_cache_archive.rs:993 | a size with the high bit set is the big-endian number in the last eight bytes |
| `TarHeader.OctalAmongBlanks` | crates/sandboxwich-agent/src/compiler_cache_archive.rs:980 | blanks around an octal number, a plus sign before it and anything after a NUL do not matter |
| `TarHeader.ChecksumOfZeros` | crates/sandboxwich-agent/src/compiler_cache_archive.rs:1193-1202 | the checksum of a block of zeros is 256 |
| `TarHeader.ChecksumByByte` | crates/sandboxwich-agent/src/compiler_cache_archive.rs:1193-1202 | every byte counts with its value, except the eight of the checksum field, which do not count |
| `TarHeader.OneByteIsNoticed` | crates/sandboxwich-agent/src/compiler_cache_archive.rs:1193-1202 | a matching header with one byte outside the field changed no longer matches |
| `TarHeader.RegularFileTypes` | crates/sandboxwich-agent/src/compiler_cache_archive.rs:981-983 | only the flags `0` and NUL stand for a regular file |
| `TarHeader.NameOnly` | crates/sandboxwich-agent/src/compiler_cache_archive.rs:984-985 | without the magic or with an empty prefix field, the name field alone is the path |
| `TarHeader.ZeroBlockIsNoHeader` | crates/sandboxwich-agent/src/compiler_cache_archive.rs:968-981 | a block of zeros can never be taken for a header |
| `ArchivePath.NormalizedArchivePath` | crates/sandboxwich-agent/src/compiler_cache_archive.rs:907-926 | the component loop: a path is refused exactly when it is empty, absolute, starts with a dot component, leads upwards or has a NUL or backslash; what is accepted and prints back unchanged is canonical, and every canonical path is |
| `ArchivePath.SplitJoin` | crates/sandboxwich-agent/src/compiler_cache_archive.rs:890-905 | joining slash-free components and splitting again is the identity |
| `ArchivePath.JoinSplit` | crates/sandboxwich-agent/src/compiler_cache_archive.rs:984-989 | splitting and joining again is the identity on all paths |
| `ArchivePath.AcceptedIsCanonical` | crates/sandboxwich-agent/src/compiler_cache_archive.rs:907-926 | a path that survives normalisation unchanged has no empty, dot or dot-dot component, NUL or backslash |
| `ArchivePath.CanonicalMeans` | crates/sandboxwich-agent/src/compiler_cache_archive.rs:907-926 | canonical paths in characters: no backslash or NUL, no empty component, none of one or two dots |
| `TarArchive.NextCell` | crates/sandboxwich-agent/src/compiler_cache_archive.rs:968-1034 | any admissible reading that agrees so far goes on with the cell the parser finds next |
| `TarArchive.LastCell` | crates/sandboxwich-agent/src/compiler_cache_archive.rs:968-981 | any reading ends where the first zero block stands, with one or two zero blocks and nothing after |
| `TarArchive.LeadsFurther` | crates/sandboxwich-agent/src/compiler_cache_archive.rs:982-1034 | one step of the parser keeps all readings, or shows that there is none |
| `TarArchive.LeadsNoFurther` | crates/sandboxwich-agent/src/compiler_cache_archive.rs:968-1041 | at the trailer there is exactly one reading, or none when data follows or the identity is missing |
| `TarArchive.NoTrailer` | crates/sandboxwich-agent/src/compiler_cache_archive.rs:1036-1038 | an archive that runs out before a zero block has no reading |
| `TarArchive.Unaligned` | crates/sandboxwich-agent/src/compiler_cache_archive.rs:952-955 | an archive that is not block aligned has no reading |
| `TarArchive.ReadHeader` | crates/sandboxwich-agent/src/compiler_cache_archive.rs:982-992 | the checks on a header succeed exactly for a regular file with a matching checksum, a canonical path not seen before and a readable size |
| `TarArchive.ReadEntry` | crates/sandboxwich-agent/src/compiler_cache_archive.rs:993-1032 | the checks on an entry succeed exactly when its data is there and every bound, the identity's schema and the entry count allow it |
| `TarArchive.ReadCell` | crates/sandboxwich-agent/src/compiler_cache_archive.rs:964-1034 | one turn of the loop keeps offset, seen paths, entries, identity and total in step with the cells read, or shows that the archive has no reading |
| `TarArchive.ValidateTar` | crates/sandboxwich-agent/src/compiler_cache_archive.rs:947-1042 | accepted if and only if the bytes are tiled by admissible cells and a trailer; the reading is then unique and the entries, identity and total returned are its own |
| `TarArchive.ValidIdentityMeans` | crates/sandboxwich-agent/src/compiler_cache_archive.rs:1019-1022 | an identity is valid exactly if it is neither empty nor too long and satisfies the schema |
| `TarArchive.IdentityName` | crates/sandboxwich-agent/src/compiler_cache_archive.rs:994 | the reserved name, character by character |
| `CacheTree.CollectLists` | crates/sandboxwich-agent/src/compiler_cache_archive.rs:768-799 | a successful walk lists every file of the tree once, with its bytes |
| `CacheTree.CollectLegal` | crates/sandboxwich-agent/src/compiler_cache_archive.rs:890-905 | every path listed is non-empty, of UTF-8 components that are file names |
| `CacheTree.CollectSucceeds` | crates/sandboxwich-agent/src/compiler_cache_archive.rs:768-799 | the walk fails exactly on a special file or a path that is not UTF-8, whatever the order of the listings |
| `CacheTree.FilesDoNotNest` | crates/sandboxwich-agent/src/compiler_cache_archive.rs:768-799 | no file of a tree lies below another file |
| `CacheTree.SourcesComparable` | crates/sandboxwich-agent/src/compiler_cache_archive.rs:187 | distinct files have distinct printed paths, so the sort has no ties |
| `ByteStrings.LessMeans` | crates/sandboxwich-agent/src/compiler_cache_archive.rs:187 | the order of paths is bytewise: a proper prefix, or the smaller byte at the first difference |
| `Capture.CheckSources` | crates/sandboxwich-agent/src/compiler_cache_archive.rs:188-205 | the checks succeed exactly when count, reserved name, entry sizes and running total fit, and give the total |
| `Capture.WriteTar` | crates/sandboxwich-agent/src/compiler_cache_archive.rs:219-254 | the index-driven merge loop prints the sorted sources with the identity inserted at its place, and fails exactly when some path has no ustar encoding |
| `Capture.PrintedLayout` | crates/sandboxwich-agent/src/compiler_cache_archive.rs:928-945 | a printed file is its header, its bytes and zeros up to the next multiple of 512 |
| `Capture.TarLayout` | crates/sandboxwich-agent/src/compiler_cache_archive.rs:219-255 | a tar grows file by file and ends with 1024 zeros |
| `Capture.CaptureTree` | crates/sandboxwich-agent/src/compiler_cache_archive.rs:166-273 | capture succeeds exactly for capturable trees and then publishes the compressed tar of the arranged sources, with that tar's digest, sizes and entry count |
| `Capture.ArrangedAscending` | crates/sandboxwich-agent/src/compiler_cache_archive.rs:187-254 | the printed paths strictly ascend, identity included |
| `Capture.CaptureDeterministic` | crates/sandboxwich-agent/src/compiler_cache_archive.rs:185-190 | two enumerations of the same tree are both captured or both refused, and are captured as the same tar, archive and summary, with strictly ascending paths and the identity exactly once |
| `Capture.SortedFits` | crates/sandboxwich-agent/src/compiler_cache_archive.rs:187-205 | the checks do not depend on the order of the sources |
| `Staging.Directory.constructor` | crates/sandboxwich-agent/src/compiler_cache_archive.rs:1044-1050 | a staging directory starts empty |
| `Staging.Directory.CreateParentConfined` | crates/sandboxwich-agent/src/compiler_cache_archive.rs:1112-1143 | fails exactly when a parent is a file; otherwise adds the missing parents and nothing else |
| `Staging.FitsMeans` | crates/sandboxwich-agent/src/compiler_cache_archive.rs:1112-1143 | a file can be created exactly when its path neither equals nor lies above or below another file's path |
| `Staging.HoldsOneMore` | crates/sandboxwich-agent/src/compiler_cache_archive.rs:1050-1069 | creating one more file keeps the tree equal to the files so far and their ancestors |
| `Staging.Directory.ExtractEntries` | crates/sandboxwich-agent/src/compiler_cache_archive.rs:1044-1071 | extraction succeeds if and only if no path is a prefix of another, and leaves exactly those files with those bytes and their ancestor directories |
| `Staging.CollectFolders` | crates/sandboxwich-agent/src/compiler_cache_archive.rs:1073-1088 | the loop over parents collects every proper non-empty prefix of an entry's path |
| `Staging.Directory.ValidateExtractedTree` | crates/sandboxwich-agent/src/compiler_cache_archive.rs:1145-1168 | accepts exactly when files with sizes and directories are the expected ones |
| `Staging.ExtractedTreeValidates` | crates/sandboxwich-agent/src/compiler_cache_archive.rs:1145-1191 | a tree that holds the extracted files always passes the check that follows |
| `Staging.Directory.SyncStagingDirectories` | crates/sandboxwich-agent/src/compiler_cache_archive.rs:1073-1110 | every directory is synced once, the root last, and none before a directory below it; fails exactly when one is missing or not a directory |
| `Staging.SyncOrder` | crates/sandboxwich-agent/src/compiler_cache_archive.rs:1089-1095 | deepest first, then by path, is a strict order |
| `Staging.PathLessMeans` | crates/sandboxwich-agent/src/compiler_cache_archive.rs:1089-1095 | among directories of one depth the first differing component decides |
| `Restore.CopyBounded` | crates/sandboxwich-agent/src/compiler_cache_archive.rs:1204-1222 | the copy loop returns all of the stream exactly when it is within the bound |
| `Restore.TarLimit` | crates/sandboxwich-agent/src/compiler_cache_archive.rs:537-540 | the bound on the tar fits 64 bits, and is the physical bound whenever that fits, wrapping or falling back otherwise |
| `Restore.TarLimitOverflows` | crates/sandboxwich-agent/src/compiler_cache_archive.rs:537-540 | the two ways the computation leaves the physical bound, with their values |
| `Restore.HexDigestMeans` | crates/sandboxwich-agent/src/compiler_cache_archive.rs:757-766 | a digest is 64 characters out of `0` to `9` and `a` to `f` |
| `Restore.EntryFiles` | crates/sandboxwich-agent/src/compiler_cache_archive.rs:1059-1065 | the slice an entry names is the data of its cell |
| `Restore.RestoreArchive` | crates/sandboxwich-agent/src/compiler_cache_archive.rs:487-571 | restore succeeds if and only if the request is restorable, and then the activated tree is the reading's files and the summary its own |
| `RoundTrip.PrintedWellFormed` | crates/sandboxwich-agent/src/compiler_cache_archive.rs:890-926 | a printed cell is accepted by the parser if and only if its path has no backslash, and names the same file |
| `RoundTrip.ReadingIsPrinted` | crates/sandboxwich-agent/src/compiler_cache_archive.rs:928-1042 | any reading of a printed tar is the list of printed cells |
| `RoundTrip.CellsAdmitted` | crates/sandboxwich-agent/src/compiler_cache_archive.rs:947-1042 | printed cells of sources within the limits are admitted |
| `RoundTrip.BodySize` | crates/sandboxwich-agent/src/compiler_cache_archive.rs:537-540 | a printed tar exceeds its contents by less than 1024 bytes an entry |
| `RoundTrip.CapturedTarReads` | crates/sandboxwich-agent/src/compiler_cache_archive.rs:166-254 | the captured tar is readable exactly when no path has a backslash and identity plus contents fit the uncompressed bound |
| `RoundTrip.CaptureThenRestore` | crates/sandboxwich-agent/src/compiler_cache_archive.rs:166-571 | restoring what was captured succeeds if and only if no path has a backslash, identity plus contents fit and the tar is within the computed bound; it then gives back the same paths and bytes, without empty directories and identity, and the same count and size |
| `RoundTrip.NoPhysicalBoundTripped` | crates/sandboxwich-agent/src/compiler_cache_archive.rs:537-540 | the bound on the tar is never tripped by a tree that fits, unless its computation overflows |
| `RoundTrip.CaptureAndRestore` | crates/sandboxwich-agent/src/compiler_cache_archive.rs:166-571 | calling capture and then restore: restore succeeds exactly under those conditions, and returns the captured tree with the very summary capture returned |
| `RoundTrip.IdentityBoundSuffices` | crates/sandboxwich-agent/src/compiler_cache_archive.rs:191-205 | when the identity bound is at most the uncompressed bound the size condition always holds |
| `RoundTrip.ShippedLimits` | crates/sandboxwich-agent/src/compiler_cache_archive.rs:35-72 | the shipped limits, in numbers, satisfy both premises on limits |
| `RoundTrip.BackslashIsNotRestored` | crates/sandboxwich-agent/src/compiler_cache_archive.rs:907-910 | a tree with one file named by a backslash is captured with any valid identity and never restored |
| `RoundTrip.OversizedIdentityIsNotRestored` | crates/sandboxwich-agent/src/compiler_cache_archive.rs:191-205 | for an empty cache, every valid identity beyond the uncompressed bound is captured and never restored |
| `RoundTrip.BracesAreNotRestored` | crates/sandboxwich-agent/src/compiler_cache_archive.rs:191-205 | such an input with nothing left open: two bytes of identity and an uncompressed bound of zero |
| `ResidentLease.StepKeeps` | crates/sandboxwich-agent/src/main.rs:3457-3667 | every step of the handler, the renewal task and the child keeps the invariant that ties the handler's position to the log |
| `ResidentLease.EveryRunIsLawful` | crates/sandboxwich-agent/src/main.rs:3457-3667 | in every interleaving: complete only after an acknowledged terminal observation and, for a failure, only after the last attempt; Running only after Starting in the same attempt; a further attempt only after a failed one; nothing sent once cancelled; no child outstanding at complete or fail; at most 3 children under OnFailure and 1 otherwise; no return before the lease is settled |
| `ResidentLease.CompletionIsEarned` | crates/sandboxwich-agent/src/main.rs:3619-3664 | a complete request follows an acknowledged terminal observation with the same exit code, with no child left; if not cancelled the code is that of the last child waited for, and a failure is that of the last attempt |
| `ResidentLease.NothingIsDropped` | crates/sandboxwich-agent/src/main.rs:3457-3667 | the handler returns only after completing or giving back the lease or on one of three errors, and after a desired stop only after completing |
| `ResidentLease.FailedChildIsReplaced` | crates/sandboxwich-agent/src/main.rs:3613-3618 | a child that fails before the last attempt is followed by the next one |
| `ResidentLease.LastChildIsReported` | crates/sandboxwich-agent/src/main.rs:3613-3648 | a child that succeeds, or fails in the last attempt, is reported as Stopped or Failed with its code |
| `ResidentLease.ChildIsAnnounced` | crates/sandboxwich-agent/src/main.rs:3542-3598 | a spawned child is announced as Starting and then Running before it is waited for |
| `ResidentLease.ReportedExitIsCompleted` | crates/sandboxwich-agent/src/main.rs:3649-3664 | a reported exit is completed with its code and the handler returns |
| `ResidentLease.FailedSpawnIsTriedAgain` | crates/sandboxwich-agent/src/main.rs:3496-3502 | a spawn that fails is tried again up to the last attempt |
| `ResidentLease.FailedSpawnIsReported` | crates/sandboxwich-agent/src/main.rs:3503-3541 | a last failed spawn is reported and the lease failed for good |
| `ResidentLease.FailedRequestIsSentAgain` | crates/sandboxwich-agent/src/main.rs:2382-2490 | an observation or completion that fails is sent again |
| `ResidentLease.CancellationIsNoticed` | crates/sandboxwich-agent/src/main.rs:2382-2490 | a cancellation is noticed while waiting for the child, before sending and while backing off, and its reason is read |
| `ResidentLease.DesiredStopRunsItsCourse` | crates/sandboxwich-agent/src/main.rs:2499-2592 | a desired stop kills the child, reports Stopped, completes with 0 and returns |
| `ResidentLease.LostLeaseRunsItsCourse` | crates/sandboxwich-agent/src/main.rs:2552-2612 | a lost lease kills the child, reports the loss and fails retryably; without a child it fails for good |
| `ResidentLease.ErrorsEndTheHandler` | crates/sandboxwich-agent/src/main.rs:3475-3600 | a failed activation check ends the handler before anything is spawned, and so does a failed wait |
| `ResidentLease.LostOnlyAfterThreeFailures` | crates/sandboxwich-agent/src/main.rs:2096-2132 | the lease is declared lost and renewal stops only when the last three renewals have all failed |
| `ResidentLease.ThreeFailuresDecide` | crates/sandboxwich-agent/src/main.rs:2096-2132 | three failures do end the lease, unless a stop was desired, and then renewal sleeps again |
| `ResidentLease.RenewedSleepsAgain` | crates/sandboxwich-agent/src/main.rs:2096-2099 | a renewal that succeeds leaves the cell alone and renewal asleep |
| `ResidentLease.StopIsRecorded` | crates/sandboxwich-agent/src/main.rs:2101-2109 | the signal for a desired stop is recorded unless something else was first |
| `ResidentLease.StopOnlyWhenSignalled` | crates/sandboxwich-agent/src/main.rs:2101-2109 | a desired stop is recorded only on the server's signal |
| `ResidentLease.CellSetOnce` | crates/sandboxwich-agent/src/main.rs:2051-2058 | the cancellation reason is set at most once |
| `ResidentLease.ReadOnce` | crates/sandboxwich-agent/src/main.rs:2552-2612 | the handler acts on one reason only |
| `ResidentLease.DesiredStopKeepsRenewing` | crates/sandboxwich-agent/src/main.rs:2078-2137 | once a desired stop is recorded the renewal task never writes a lost lease and never stops by itself |
| `ResidentLease.DesiredStopIsFollowed` | crates/sandboxwich-agent/src/main.rs:2499-2551 | after reading a desired stop nothing is failed, and complete is sent only with exit 0 after an acknowledged Stopped in between |
| `ResidentLease.LostLeaseIsNotCompleted` | crates/sandboxwich-agent/src/main.rs:2552-2612 | after reading a lost lease complete is never sent |
| `SterileLauncher.StepKeeps` | crates/sandboxwich-agent/src/main.rs:2810-2946 | every critical section and every move of the runner keeps the invariant |
| `SterileLauncher.EveryRunIsLawful` | crates/sandboxwich-agent/src/main.rs:2810-2946 | in every interleaving of requests, replays, status reads and the runner: each answer, each start and each recorded status is lawful after what came before it, and every reported status is the one recorded last |
| `SterileLauncher.AnswerIsForced` | crates/sandboxwich-agent/src/main.rs:2836-2858 | after any run a valid request is taken, replayed or refused as conflicting according to the digest taken so far |
| `SterileLauncher.InvalidIsRefused` | crates/sandboxwich-agent/src/main.rs:2814-2820 | a request that does not validate changes nothing |
| `SterileLauncher.WholeActivation` | crates/sandboxwich-agent/src/main.rs:2810-2946 | an activation from request to exit, entry by entry, with the status asked for on the way |
| `SterileLauncher.FailedActivation` | crates/sandboxwich-agent/src/main.rs:2860-2885 | an activation whose preparation fails ends with the error status |
| `SterileLauncher.SuccessBelongsToTheTaken` | crates/sandboxwich-agent/src/main.rs:2836-2858 | no second activation is taken, and every later success and the runner belong to the first digest |
| `SterileLauncher.OneRunner` | crates/sandboxwich-agent/src/main.rs:2832-2833 | at most one runner is started |
| `SterileLauncher.StatusMovesForward` | crates/sandboxwich-agent/src/main.rs:2925-2946 | a later answer never reports an earlier phase |
| `Idempotency.InsertKeeps` | crates/sandboxwich-api/src/idempotency.rs:137-164 | claiming a key, with or without a reported error, keeps the invariant |
| `Idempotency.SettleKeeps` | crates/sandboxwich-api/src/idempotency.rs:166-189 | storing or abandoning after the handler, where the statement may be applied although it reports an error, keeps the invariant |
| `Idempotency.CleanUpKeeps` | crates/sandboxwich-api/src/idempotency.rs:204-243 | releasing a row whose completion reported an error keeps the invariant |
| `Idempotency.PollKeeps` | crates/sandboxwich-api/src/idempotency.rs:271-311 | a waiter's turn keeps the invariant, in particular that replays are sound |
| `Idempotency.DropKeeps` | crates/sandboxwich-api/src/idempotency.rs:137-189 | a request dropped at any point of its work, with its last statement applied or not, keeps the invariant |
| `Idempotency.SweepKeeps` | crates/sandboxwich-api/src/idempotency.rs:462-475 | deleting any expired rows keeps the invariant |
| `Idempotency.AtMostOneActive` | crates/sandboxwich-api/src/idempotency.rs:137-189 | two requests at work under one key are the same request |
| `Idempotency.ArriveIsForced` | crates/sandboxwich-api/src/idempotency.rs:137-142 | a request reads the clock once, before it claims its key |
| `Idempotency.InsertIsForced` | crates/sandboxwich-api/src/idempotency.rs:140-164 | a free key is claimed for 300 seconds; a taken one means forty polls |
| `Idempotency.SettleIsForced` | crates/sandboxwich-api/src/idempotency.rs:166-189 | every response but a 429 or one not to be kept is stored for a day under its key, fingerprint and owner; otherwise the key is free |
| `Idempotency.SettleErrorIsForced` | crates/sandboxwich-api/src/idempotency.rs:172-229 | if storing reports an error the row is still to be released; an error in releasing is passed over |
| `Idempotency.CleanUpFrees` | crates/sandboxwich-api/src/idempotency.rs:204-243 | after a failed completion the key is freed if the row is still being processed |
| `Idempotency.PollIsForced` | crates/sandboxwich-api/src/idempotency.rs:271-311 | what a waiter is told, from the row under its key: released, reused, replayed, or still in progress |
| `Idempotency.PollsRunOut` | crates/sandboxwich-api/src/idempotency.rs:271-311 | the waiter is told that the request is in progress exactly when its polls are used up |
| `Idempotency.RetryIsReplayed` | crates/sandboxwich-api/src/idempotency.rs:81-311 | once an answer is stored, whatever happens within a day, a retry with the same body is told that answer and executes nothing, and another body is refused |
| `Idempotency.DropLeavesTheRow` | crates/sandboxwich-api/src/idempotency.rs:18-31 | dropping a request in the middle of its work touches no row |
| `Idempotency.EveryPunctualRunIsSafe` | crates/sandboxwich-api/src/idempotency.rs:81-243 | if no request at work outlives its lease, in every run with dropped requests and sweeps: one execution per key at a time, a completed row holds its inserter's response and fingerprint, replays repeat an execution with the same key and fingerprint, and 429 or skipped responses are never stored |
| `Idempotency.DroppedClaimIsReclaimed` | crates/sandboxwich-api/src/idempotency.rs:18-31 | the expired row of a dropped request is swept, its key can be claimed again, and every promise is kept |
| `Idempotency.EveryOverrunCanBreak` | crates/sandboxwich-api/src/idempotency.rs:18-31 | the premise is needed everywhere: from every invariant state in which a request is past its lease before storing or releasing its row, a sweep and a new request break the promises |
| `Idempotency.OverrunBreaksExclusion` | crates/sandboxwich-api/src/idempotency.rs:18-31 | a concrete run with two executions under one key |
| `Idempotency.OverrunBreaksReplay` | crates/sandboxwich-api/src/idempotency.rs:390-418 | a concrete run in which a replay answers another request's body, since completion does not match on the owner |
| `Base64Url.DecodeEncode` | crates/sandboxwich-api/src/pagination.rs:45-53 | decoding undoes encoding (section 5 of RFC 4648, unpadded) |
| `Base64Url.DecodedWasEncoded` | crates/sandboxwich-api/src/pagination.rs:50-53 | nothing decodes except what was encoded |
| `Base64Url.LetterIsAlphabet` | crates/sandboxwich-api/src/pagination.rs:45-53 | the alphabet of Table 2 of RFC 4648 |
| `Base64Url.GroupMeans` | crates/sandboxwich-api/src/pagination.rs:45-53 | three bytes and their four letters are the same 24-bit number |
| `Base64Url.TailMeans` | crates/sandboxwich-api/src/pagination.rs:45-53 | a last group of one or two bytes is that of the bytes filled up with zeros, cut short |
| `Pagination.CursorRoundTrip` | crates/sandboxwich-api/src/pagination.rs:37-64 | a cursor is decoded back if and only if its timestamp has no separator |
| `Pagination.DecodeCursorMeans` | crates/sandboxwich-api/src/pagination.rs:50-64 | a cursor is accepted exactly if it is the base64url of a text with a bar, cut at the first |
| `Pagination.ResolvePageCursorMeans` | crates/sandboxwich-api/src/pagination.rs:76-87 | refused exactly if both cursors are given or the one given does not decode; otherwise it asks for the side it names |
| `Pagination.KeyOrder` | crates/sandboxwich-api/src/pagination.rs:139-160 | creation time decides first and the id only between equal times |
| `Pagination.ResolvePageLimit` | crates/sandboxwich-api/src/pagination.rs:68-74 | only zero is refused; without a limit the default is taken, and otherwise the smaller of the request and the maximum |
| `Pagination.FetchPage` | crates/sandboxwich-api/src/pagination.rs:119-202 | a forward page is the first `limit` rows past the bound and has a cursor exactly when more follow; a backward page is the nearest `limit` rows below it, ascending, and has a cursor when it has rows |
| `Pagination.DescendingIsReverse` | crates/sandboxwich-api/src/pagination.rs:139-160 | the descending query is the ascending one reversed |
| `Pagination.NextCursorResumes` | crates/sandboxwich-api/src/pagination.rs:76-87 | the cursor of a page, sent back as `after`, asks for what follows its last row |
| `Pagination.SeparatorRepeatsTheRow` | crates/sandboxwich-api/src/pagination.rs:45-64 | with a separator in its timestamp, the last row of a page is asked for again by the page's own cursor |
| `Pagination.TraversalAscends` | crates/sandboxwich-api/src/pagination.rs:119-202 | whatever changes between requests, the pages of a traversal by keys together strictly ascend: nothing twice, nothing out of order |
| `Pagination.TraversalMissesNothing` | crates/sandboxwich-api/src/pagination.rs:119-202 | a row present at every request of a finished traversal by keys is returned |
| `Pagination.NextAsksForTheRest` | crates/sandboxwich-api/src/pagination.rs:119-202 | on an unchanged table the next request lists exactly what is left |
| `Pagination.FixedTableTraversal` | crates/sandboxwich-api/src/pagination.rs:119-202 | an unchanged table takes max(1, ceil(n / limit)) pages by keys, whose concatenation is the sorted table |
| `Pagination.Follow` | crates/sandboxwich-api/src/pagination.rs:76-202 | a client that fetches pages and sends each returned cursor back as `after` sees exactly that traversal: strictly ascending, missing no row that stays, and on an unchanged table max(1, ceil(n / limit)) pages that make up the sorted table |
| `Pagination.FollowCursors` | crates/sandboxwich-api/src/pagination.rs:76-202 | the client's loop through encoded cursors receives exactly the pages of the traversal by keys, and ends exactly when that one does |
| `Pagination.AfterBackward` | crates/sandboxwich-api/src/pagination.rs:139-202 | what follows the last row of a backward page is exactly what lies at or past its boundary |
| `Pagination.BackwardThenForward` | crates/sandboxwich-api/src/pagination.rs:139-202 | a client that fetches a backward page and sends its cursor as `after` receives first the nearest rows below the boundary and then the first rows at or past it |
| `TenantLimits.Counters.constructor` | crates/sandboxwich-api/src/limits.rs:101-106 | no counter at the start |
| `TenantLimits.Counters.Consume` | crates/sandboxwich-api/src/limits.rs:101-135 | an admitted call changes its own counter as the upsert does; a refused one changes nothing |
| `TenantLimits.Counters.Enforce` | crates/sandboxwich-api/src/limits.rs:48-88 | without a policy nothing is counted; with one, requests first and then mutations, and no other tenant is touched |
| `TenantLimits.Counters.Expire` | crates/sandboxwich-api/src/limits.rs:254-265 | only expired counters are deleted |
| `TenantLimits.WindowBound` | crates/sandboxwich-api/src/limits.rs:101-135 | over every run no window admits more than the limit |
| `TenantLimits.IntervalBound` | crates/sandboxwich-api/src/limits.rs:101-135 | over every run any interval one window long admits at most 2 * limit - 1 calls |
| `TenantLimits.IntervalBoundAttained` | crates/sandboxwich-api/src/limits.rs:101-135 | for every accepted limit and window, a run in time order reaches that bound |
| `TenantLimits.RefusedOnlyWhenFull` | crates/sandboxwich-api/src/limits.rs:101-135 | a refusal happens only inside a window that has admitted exactly the limit |
| `TenantLimits.SweepingChangesNothing` | crates/sandboxwich-api/src/limits.rs:254-265 | deleting expired counters at any times changes no later decision |
| `TenantLimits.EnforceAll` | crates/sandboxwich-api/src/limits.rs:48-135 | a tenant's calls through `Enforce` under one policy: in any interval of the policy's seconds at most 2 * limit - 1 requests and mutations pass, and a call is refused only if the window before it was full |
| `Reaper.ResolveLastActivity` | crates/sandboxwich-api/src/reap.rs:126-136 | the result is the greatest of the signals that are present |
| `Reaper.BatchMeans` | crates/sandboxwich-api/src/reap.rs:283 | at most the hundred oldest candidates are looked at |
| `Reaper.AttemptReapMeans` | crates/sandboxwich-api/src/reap.rs:198-264 | what becomes of one candidate, from its deadline and from what the stop did |
| `Reaper.DueMeans` | crates/sandboxwich-api/src/reap.rs:62-162 | a sandbox is due if and only if its lifetime, or the idle time since every one of its signals, has elapsed, counting a TTL of more than 63 bits as the longest that fits; the lifetime takes precedence |
| `Reaper.ActivityColumn.constructor` | crates/sandboxwich-api/src/activity.rs:32-40 | nothing recorded at the start |
| `Reaper.ActivityColumn.Bump` | crates/sandboxwich-api/src/activity.rs:32-52 | the conditional update writes only when the column is more than the throttle old, and leaves it at most the throttle behind |
| `Reaper.RecordedNeverDecreases` | crates/sandboxwich-api/src/activity.rs:32-52 | recorded activity never moves backwards, in any order of bumps |
| `Reaper.RecordedKeepsUp` | crates/sandboxwich-api/src/activity.rs:32-52 | the column stays within the throttle of every successful bump |
| `Reaper.IdleReapBound` | crates/sandboxwich-api/src/reap.rs:126-162 | an idle reap implies every recorded bump is older than the idle time less the throttle, and the last command and state change older than the idle time |
| `Reaper.ThrottleSlackAttained` | crates/sandboxwich-api/src/activity.rs:25-52 | the throttle's slack is real: a bump exactly one throttle later does not move the deadline |
| `Reaper.Sweep` | crates/sandboxwich-api/src/reap.rs:285-325 | the sweep succeeds exactly when no candidate aborts it; it stops, in order, exactly the due sandboxes before the first that does, and reports them only if it succeeds; with all stops good they are the ones progress is proved for |
| `Reaper.OneFailureEndsTheSweep` | crates/sandboxwich-api/src/reap.rs:198-212 | three due sandboxes of which the second one's rules cannot be loaded: the sweep fails, hides the first stop and never tries the third |
| `Reaper.ReapProgress` | crates/sandboxwich-api/src/reap.rs:198-325 | with at most k < 100 undue sandboxes ahead, a due sandbox with d due ones ahead is stopped within ceil((d + 1) / (100 - k)) sweeps |
| `Supervisor.ResidentProcessSupervisor.constructor` | crates/sandboxwich-agent/src/resident_process_supervisor.rs:104-110 | nothing spawned, and a cap of at least one |
| `Supervisor.CompletionOf` | crates/sandboxwich-agent/src/resident_process_supervisor.rs:154-172 | which outcome each join gives, with its own metadata |
| `Supervisor.ResidentProcessSupervisor.Spawn` | crates/sandboxwich-agent/src/resident_process_supervisor.rs:120-137 | refused, without change, exactly at the cap; otherwise the metadata is held under the new id |
| `Supervisor.ResidentProcessSupervisor.Complete` | crates/sandboxwich-agent/src/resident_process_supervisor.rs:154-178 | the joined task's metadata is always there, is reported with its outcome and is removed |
| `Supervisor.ResidentProcessSupervisor.TryReap` | crates/sandboxwich-agent/src/resident_process_supervisor.rs:139-142 | reports the ended task if there is one, and changes nothing else |
| `Supervisor.ResidentProcessSupervisor.Shutdown` | crates/sandboxwich-agent/src/resident_process_supervisor.rs:144-152 | the draining loop reports each active task once, leaves none, and then everything ever spawned has been reported |
| `Supervisor.SpawnSettled` | crates/sandboxwich-agent/src/resident_process_supervisor.rs:120-137 | spawning keeps every spawned metadata either active or in exactly one completion |
| `Supervisor.ReapSettled` | crates/sandboxwich-agent/src/resident_process_supervisor.rs:154-178 | joining keeps every spawned metadata either active or in exactly one completion |
| `ObservationSink.Cell.constructor` | crates/sandboxwich-api/src/maestro_observation.rs:30-35 | a new aggregate is zero |
| `ObservationSink.Cell.Add` | crates/sandboxwich-api/src/maestro_observation.rs:37-50 | the in-place bucket loop adds one sample with saturating 64-bit arithmetic |
| `ObservationSink.SaturationIsExact` | crates/sandboxwich-api/src/maestro_observation.rs:37-50 | within a batch counts and buckets are exact and the sum is the true sum cut off at 64 bits |
| `ObservationSink.BucketsCumulative` | crates/sandboxwich-api/src/maestro_observation.rs:41-48 | each bucket includes the one before and none exceeds the count |
| `ObservationSink.PlainMeans` | crates/sandboxwich-api/src/maestro_observation.rs:37-50 | what the columns mean: the count, the sum of the times and the eight counts of samples up to each limit |
| `ObservationSink.MergeIsSampleBySample` | crates/sandboxwich-api/src/maestro_observation.rs:216-232 | adding a group's columns equals adding its samples one at a time |
| `ObservationSink.GroupBatch` | crates/sandboxwich-api/src/maestro_observation.rs:190-197 | the grouping loop yields one aggregate per key that occurs, over that key's samples |
| `ObservationSink.EnqueueKeeps` | crates/sandboxwich-api/src/maestro_observation.rs:90-126 | a call is queued or counted under the right loss, and conservation holds |
| `ObservationSink.SinkStartsEmpty` | crates/sandboxwich-api/src/maestro_observation.rs:83-88 | a new sink is empty and holds at least one sample |
| `ObservationSink.EnqueueIsForced` | crates/sandboxwich-api/src/maestro_observation.rs:90-126 | a call is queued exactly when there is room and a writer, and otherwise moves exactly the counter for its loss |
| `ObservationSink.FillingIsForced` | crates/sandboxwich-api/src/maestro_observation.rs:169-182 | the oldest sample is taken while the batch has fewer than 64; at 64 or with an empty queue the batch is flushed |
| `ObservationSink.NothingIsStuck` | crates/sandboxwich-api/src/maestro_observation.rs:154-214 | with a live writer everything accepted can still be persisted without further loss |
| `ObservationSink.ReceiveKeeps` | crates/sandboxwich-api/src/maestro_observation.rs:154-182 | filling a batch keeps conservation and the batch bound |
| `ObservationSink.EndKeeps` | crates/sandboxwich-api/src/maestro_observation.rs:83-88 | the end of the writer discards queue and batch, and conservation counts them as discarded |
| `ObservationSink.WriteKeeps` | crates/sandboxwich-api/src/maestro_observation.rs:199-256 | writing or losing a group keeps conservation and the table's agreement with the persisted samples |
| `ObservationSink.EveryRunBalances` | crates/sandboxwich-api/src/maestro_observation.rs:90-256 | in every run each call is persisted, counted as lost, queued, batched or was discarded when the writer ended, and the promised balance holds if and only if nothing was discarded; each row has the count and cumulative buckets of its samples one at a time, and the true sum if and only if no written group overflowed, which needs a sample above 2^63 / 64 ms |
| `ObservationSink.BalancedWhileWriting` | crates/sandboxwich-api/src/maestro_observation.rs:65-72 | as long as the writer lives every call is accounted for |
| `ObservationSink.BalancedIffNothingHeld` | crates/sandboxwich-api/src/maestro_observation.rs:65-72 | once the writer has ended, whatever follows, every call is accounted for if and only if queue and writer were empty at that moment |
| `ObservationSink.NothingAfterTheEnd` | crates/sandboxwich-api/src/maestro_observation.rs:115-123 | after the end nothing is persisted or discarded and every call is counted under the closed channel |
| `ObservationSink.SilentLoss` | crates/sandboxwich-api/src/maestro_observation.rs:154-188 | a sample is queued, the writer ends, and no counter tells |
| `ObservationSink.LongTimesAreCutOff` | crates/sandboxwich-api/src/maestro_observation.rs:37-41 | a concrete batch whose sum is cut off |

## Left out

- gzip, SHA-256 and the identity's JSON schema: library behaviour, taken as parameters; the round trip assumes that decompressing undoes compressing.
- The tar crate is not part of this model: header fields follow the ustar layout with the base-256 size extension, and trimming of non-ASCII blanks around octal numbers is not modelled.
- Restore.TarLimit: a build with overflow checks panics where this one wraps.
- Interference with the file system during capture or restore (symlink swaps, hard links, changed sizes or times), modes, ownership, durability of single writes, the atomic rename and the publication that refuses to overwrite.
- Empty directories: capture does not store them, so `SameTree` compares files and the directories above them.
- The protocols of the resident handler, the launcher and the idempotency rows are modelled on values, not as objects updated in place, because their content is the interleaving of several tasks.
- Supervision of a sterile candidate, which does not use the cancellation reconciliation modelled here, and the validation of activation requests before they reach the launcher's cell.
- Whether the kernel kills a child that is told to die: killing and waiting is one step.
- Wrong order of delivery: launcher answers are logged in the order they are decided under the lock.
- A statement of a dropped request that takes effect only later: it is applied when the request is dropped, or not at all.
- A sweep whose candidate query itself fails, and a stop that reports an error but was carried out.
- Liveness of the lease handler: the retry loops are not shown to end, since the server may fail forever.
- SQL dialects, pools and isolation: each statement is one atomic step. Limits on how many rows a sweep deletes are modelled by sweeping any subset of the expired rows.
- TenantLimits.WindowBound: assumes a policy that does not change during the run and non-decreasing times; the retry-after hint is not modelled.
- Pagination: a failure to map a database row, and timestamps as text; keys are compared as byte strings, as the database compares them.
- Reaper.ReapProgress: assumes that stops of due sandboxes succeed, that no earlier sandbox re-enters the list and that at most k undue ones are ahead.
- chrono's representable range, RFC 3339 text and leap seconds.
- ObservationSink.EveryRunBalances: the table's own columns are unbounded, and a write that reports an error is taken as not applied.
- Truncation of captured output, the translation of a completion into a failure report, authorization, middleware order, `cleanup.rs`, `bootstrap_handoff.rs`, the Cloudflare bridge and the Python scripts.
