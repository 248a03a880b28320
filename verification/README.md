# EverTrace: a verified model

EverTrace captures host events into a crash-recoverable log, keeps their payloads in a content-addressed store,
redacts secrets before anything is stored, and installs its own hook as numbered generations. This project models
the parts of that system whose correctness spans many steps, and proves what they promise.

Checksums, HMAC and record-body decoding are arbitrary total functions (`SHA256`, `HMAC_SHA256`, `DECODE_BODY`), so
every result holds for any of them. Clocks, randomness, I/O failures, short reads, torn writes, power losses and other
processes are arguments of the operations, and the theorems quantify over them. Power losses are part of the spool's
runs and, together with the blobs they can take, of the capture runs; the installer's crashes are the prefixes of its
trace.

| file | models |
|---|---|
| `Prelude`, `Record` | bytes, big-endian integers, sums over directories, stable sorting; spool records, UTF-8, digests |
| `Scanner`, `Frame` | scanning a log for any sound codec; the spool's own frame codec, encoder and cursor |
| `Validator`, `Paging` | chunked re-validation of the active file; bounded pages with a resume cursor |
| `SpoolState`, `SpoolRuns`, `Recovery`, `Spool` | the spool as transitions; what every run keeps; what recovery does to each file; the same operations as code on a mutable object |
| `Backup` | backup boundary and per-file verification |
| `Cas`, `Capture`, `BlobDurability`, `Admission` | blob store and batch deletion; captures and the collector interleaved under the fence; blobs and power failures; one capture |
| `Canonical` | the canonical encoding |
| `Detect`, `Redact`, `Protect`, `Visibility` | secret detectors, overlap resolution and splicing, the protected payload and its digest, what stays visible |
| `Install`, `InstallOutcome`, `InstallFiles`, `Registry` | the five-file publication, which outcome it has, the same as code; generations, pins and restore |
| `ConfinedRead`, `Purge` | reading a first record under a budget; purge progress chains |
| `Evertrace` | the results at the real frame codec and two that span components |

## What the proofs found

Seven promises hold only under a condition. Each condition is proved, with a run or an input that breaks the promise
without it.

- **A record whose append returned Ok can be lost, in two ways.** The first append to a new active file creates it and
  syncs the directory only at the end (`spool.rs:501-518`). If that append fails in between, the file stays; the next
  append finds it existing, returns Ok and does not sync the directory, so a power loss can remove the file
  (`DurabilityCounterexample`, `UnlinkedActiveLosesRecord`). And a move into quarantine that stops before its first sync
  (`spool.rs:1443-1454`) loses its carrier when the next sync of the main directory makes the removal durable and the
  new entry is not (`HalfMovedCarrierLosesRecord`). A state survives every power loss exactly when each Ok record is
  durable in a file of which some directory entry is durable too, or released (`PowerLossExactly`). Entries stay durable
  exactly over the steps that leave no creation and no move unfinished (`StepLinked`), and runs of such steps lose
  nothing (`DurableWhenEntriesComplete`).
- **A blob can be lost under a durable frame, in two ways.** A put whose shard sync fails leaves its blob, and the next
  put of the same payload returns Ok without syncing (`cas.rs:473-489`, `DeduplicatedPutLosesBlob`). And the entry of a
  new shard directory is never synced at all (`cas.rs:470`), so its first blob is at risk without any fault
  (`NewShardLosesBlob`). References survive every power failure exactly when each blob's entry and its shard's entry are
  durable (`PowerFailureExactly`). Blobs stay that way exactly over actions whose puts are synced into durable shard
  directories (`ActLasting`), and on such runs nothing dangles (`LastingRun`).
- **A reference can be missed by the collector.** `gc_cas_refs_intersect` looks at the quarantine directory first and
  scans the main directory afterwards (`spool.rs:690-697`). A carrier quarantined in between is seen by neither, and
  the blob its record refers to can be deleted: `QuarantineInsideWindow` is such a run from the start. References from
  the main directory are safe in every interleaving. Those from the quarantine are safe throughout exactly when no scan
  starts while only a quarantined record refers to a candidate (`NoDanglingReference`, `ScanWindowExactly`); a
  quarantine that is still empty when the scan starts is enough (`EmptyQuarantineHidesNothing`).
- **The registry can name a generation whose files another party has replaced.** `commit_locked` re-checks the host
  configuration, the service unit, the launcher and the runtime only after the registry is published
  (`install.rs:1664-1681`). An edit of one of them at a checkpoint in between leaves, after a crash, a new registry
  beside a foreign file (`EditBreaksOrder`). The order holds on the whole publication exactly when the registry is not
  reached or no such late edit happens; in every case each file was published, and holds its desired bytes unless
  somebody replaced it (`PublicationOrder`). While rolling back, it holds exactly when the registry's own step withdraws
  it or nothing it needs is taken away (`RollbackOrderExactly`, `FailedRegistryRollbackBreaksOrder`).
- **A commit or a publish can make the registry unreadable.** The launcher reads at most 4096 entries and one MiB of
  text. `commit_locked` checks neither bound of what it writes (`install.rs:1625-1641`), `publish_generation` and the
  restore only the first. `CommitReadable`, `PublishReadable` and `RestoreReadable` say exactly when the result can be
  read back; otherwise publish, resolve and commit fail from then on (`UnreadableIsPermanent`). Under a data root of 44
  bytes or more, plain publishing reaches the text bound before 4096 entries (`PublishingOverflowsText`).
- **A reported secret can stay partly visible.** Overlap resolution drops a candidate that overlaps a higher ranked one
  only in part. For `password="hunter2-hunter2 authorization: bearer abcdefgh"` the bearer token is redacted and the
  password's beginning is not (`DroppedCandidateShows`). A byte shows exactly when no selected span covers it
  (`ByteShowsExactly`); every candidate is hidden whole if of two overlapping ones the higher ranked contains the other
  (`NestedIsFullyHidden`).
- **A session's pin does not survive the restore of an older snapshot.** Restoring replaces the pins by those of the
  snapshot. A step keeps a pin exactly when it is not a restore of a snapshot without it (`StepPin`);
  `OlderSnapshotMovesPin` is a run that moves a session from generation 1 to 2.

Smaller ones: a publication that cannot read back the identity of the file it has just renamed into place is not
rolled back, so the commit ends Uncertain without anybody's interference (`UndisturbedOutcome`); the byte quota needs
a high watermark below the largest 64-bit value, because the admission sum saturates (`AdmissionBoundsUsage`); a
recovering runtime returns to Normal by a failed capture followed by a successful one, without `complete_recovery`
(`RecoveringIsLeftByFailure`); nothing bounds the pins, so 4097 sessions make the retained set fail from then on
(`TooManySessions`, `TooManyPinsIsPermanent`).

## Model

| member | source | states |
|---|---|---|
| Evertrace.TornLogIsRecovered | crates/evertrace-capture/src/frame.rs:377-468 | scanning encoded valid records followed by any strict prefix of another frame returns exactly those records, their total length, and the torn-tail flag iff the prefix is non-empty |
| Evertrace.AcceptedBytesAreEncoded | crates/evertrace-capture/src/frame.rs:377-468 | of any input, the accepted prefix is byte for byte the encoding of the returned records, all of them encodable; the tail flag is set iff bytes are left |
| Evertrace.EverySpoolRun | crates/evertrace-capture/src/spool.rs:486-1088 | after every run of appends, faults, seals, pages, acknowledgements, recoveries, kills and power losses: files are whole frames plus at most one torn tail, nothing is invented, only delivered records are acknowledged, Ok records are durable or released if each loss struck a secure state, the next loss is survived iff the state is secure, and the quota holds |
| Evertrace.HealthySegmentsAreIngestible | crates/evertrace-capture/src/spool.rs:486-989 | if every record ever handed to an append fits the CAS budget, then after any run each healthy sealed segment can be paged to its end and the pages are exactly its scan |
| Evertrace.EveryCaptureRun | crates/evertrace-capture/src/admission.rs:304-334 | in every interleaving of captures, background steps, a collector and power failures whose puts are synced into durable shards: every blob any record in the main directory refers to exists, decodable or not, and every blob a quarantined one refers to if no scan misses a reference |
| Frame.FrameCodecIsSound | crates/evertrace-capture/src/frame.rs:346-468 | the frame codec parses back what it frames with any bytes behind, reads every strict prefix as incomplete, accepts only exact encodings, and never changes a verdict when more bytes arrive; what its checksum binds is `ChecksumBinds` |
| Frame.EncodeInjective | crates/evertrace-capture/src/frame.rs:346-375 | two records with the same frame are the same record |
| Frame.ChecksumCovers | crates/evertrace-capture/src/frame.rs:591-599 | bytes 22 to 54 of every accepted frame are the SHA-256 of the domain, the header length, the header, the body length and the body, each cut out of the frame itself |
| Frame.ChecksumBinds | crates/evertrace-capture/src/frame.rs:591-599 | two accepted frames with the same 32 checksum bytes are the same frame with the same record, or the bytes hashed for them are a SHA-256 collision |
| Frame.MessageInjective | crates/evertrace-capture/src/frame.rs:591-599 | the hashed message determines header and body |
| Frame.FrameLength | crates/evertrace-capture/src/frame.rs:346-375 | the length of a frame from its fields, and the bound of 5,243,414 bytes on any acceptable frame |
| Frame.ParseEncoded | crates/evertrace-capture/src/frame.rs:377-468 | a frame followed by arbitrary bytes parses to its record and its length |
| Frame.ParseTorn | crates/evertrace-capture/src/frame.rs:377-468 | a non-empty strict prefix of a frame is incomplete, never corrupt |
| Frame.EncodeParsed | crates/evertrace-capture/src/frame.rs:377-468 | a parsed frame is byte for byte the encoding of an encodable record |
| Frame.ParseStable | crates/evertrace-capture/src/frame.rs:377-468 | a complete or corrupt verdict is unchanged by any bytes appended |
| Frame.DecodeHeaderOf | crates/evertrace-capture/src/frame.rs:478-508 | decoding inverts the header encoding |
| Frame.OfDecodeHeader | crates/evertrace-capture/src/frame.rs:478-508 | whatever decodes as a header is the encoding of the result |
| Frame.WriteFrame | crates/evertrace-capture/src/frame.rs:346-375 | the buffer-building encoder returns the frame, or the error, the codec is proved about |
| Frame.AppendString | crates/evertrace-capture/src/frame.rs:470-476 | appends a length-prefixed string, or fails above 65,535 bytes |
| Frame.Cursor.Take | crates/evertrace-capture/src/frame.rs:519-526 | removes exactly the requested bytes, or fails and leaves the cursor alone |
| Frame.Cursor.TakeUnsigned | crates/evertrace-capture/src/frame.rs:528-542 | reads a big-endian integer off the cursor |
| Frame.Cursor.TakeText | crates/evertrace-capture/src/frame.rs:544-549 | reads a length-prefixed UTF-8 string off the cursor |
| Frame.ReadHeader | crates/evertrace-capture/src/frame.rs:478-508 | the cursor-driven header decoder computes the decoder the round trip is about |
| Frame.ParseRemaining | crates/evertrace-capture/src/frame.rs:377-468 | one turn of the scan loop computes the codec's parse |
| Scanner.ScanFrames | crates/evertrace-capture/src/frame.rs:377-468 | the offset loop equals the frame-by-frame scan, errors included |
| Scanner.ScanTorn | crates/evertrace-capture/src/frame.rs:377-468 | torn-tail recovery for any sound codec |
| Scanner.EncodeScanned | crates/evertrace-capture/src/frame.rs:377-468 | the accepted prefix of any input is the re-encoding of the records returned |
| Scanner.ScanExtend | crates/evertrace-capture/src/frame.rs:377-468 | more bytes change neither a rejection nor the frames already accepted |
| Scanner.RemainderScan | crates/evertrace-capture/src/frame.rs:377-468 | what a scan leaves over holds no complete frame |
| Validator.ValidateActiveFile | crates/evertrace-capture/src/spool.rs:2001-2034 | the 64 KiB chunked validator accepts exactly the files within the limit that one scan of the whole file finds free of errors and torn tail |
| Validator.RemainderBound | crates/evertrace-capture/src/spool.rs:2001-2034 | what is pending between chunks of an acceptable file is shorter than one frame, so the 8 MiB cap never rejects it |
| Paging.ReadPageAt | crates/evertrace-capture/src/spool.rs:893-970 | one page: window, scan, frame and CAS budgets, byte ranges and the three refusals |
| Paging.TakeFrames | crates/evertrace-capture/src/spool.rs:936-968 | spending the budgets frame by frame keeps exactly the affordable prefix, placed contiguously |
| Paging.PageIsMaximal | crates/evertrace-capture/src/spool.rs:936-968 | a page is the longest run of frames at the front of its window within both budgets: at most 256 frames charging at most 60 MiB together, and the next frame of the window would exceed one of the two |
| Paging.PageIsEncoded | crates/evertrace-capture/src/spool.rs:893-970 | every page of any file is non-empty and its byte range is the encoding of its records |
| Paging.PagesAreExactlyOnce | crates/evertrace-capture/src/spool.rs:817-989 | following the continuation over a clean segment completes iff every decodable body fits the CAS budget; the pages then tile the file and together are the full scan in order |
| Paging.OnlyLastPageAcknowledges | crates/evertrace-capture/src/spool.rs:228-242 | of the pages of a segment exactly the last one can be acknowledged |
| SpoolRuns.EveryRunIsDurable | crates/evertrace-capture/src/spool.rs:486-1088 | the durability, integrity and delivery invariants after every run from an empty spool, and the exact condition under which the next power loss loses nothing |
| SpoolRuns.RunKeeps | crates/evertrace-capture/src/spool.rs:486-1088 | the same from any state that satisfies them |
| SpoolRuns.DurableWhenEntriesComplete | crates/evertrace-capture/src/spool.rs:501-518 | no Ok record is lost, power losses included, on a run that leaves no file creation and no move into quarantine unfinished |
| SpoolRuns.PowerLossExactly | crates/evertrace-capture/src/spool.rs:501-518 | a state survives every power loss iff its Ok records are durable in files of which a directory entry is durable, in the main directory or the quarantine, or released; the worst loss decides |
| SpoolRuns.StepLinked | crates/evertrace-capture/src/spool.rs:501-518 | a step keeps all directory entries durable iff it does not stop between creating a file, or moving one into quarantine, and the sync of the directory it is now in |
| SpoolRuns.UnlinkedActiveLosesRecord | crates/evertrace-capture/src/spool.rs:501-518 | when the active file has no durable entry, an admitted append returns Ok and leaves a state that is not secure; the worst loss loses the record |
| SpoolRuns.DurabilityCounterexample | crates/evertrace-capture/src/spool.rs:501-518 | two appends from an empty spool, the first failing before its directory sync, after which a power loss loses an Ok record |
| SpoolRuns.HalfMovedCarrierLosesRecord | crates/evertrace-capture/src/spool.rs:1443-1454 | append, torn append, seal, a move into quarantine that is not synced, and an append that creates the next file: the main-directory sync makes the carrier's removal durable and a power loss loses its Ok record |
| SpoolRuns.TornTailIsLast | crates/evertrace-capture/src/spool.rs:1022-1088 | a file is its whole frames followed by at most one incomplete one |
| SpoolRuns.AppendsFollowWholeFrames | crates/evertrace-capture/src/spool.rs:509-513 | in any state an append that writes anything writes directly behind whole frames: never after a torn tail |
| SpoolRuns.WrittenKeeps | crates/evertrace-capture/src/spool.rs:512-518 | a torn, unsynced or complete write loses nothing durable and adds at most the record |
| SpoolRuns.RunQuota | crates/evertrace-capture/src/spool.rs:486-500 | with a high watermark below the 64-bit maximum, the main directory stays within its file and byte limits on every run |
| SpoolRuns.AdmissionBoundsUsage | crates/evertrace-capture/src/spool.rs:496-500 | the saturating test bounds the true sum iff the watermark is below the 64-bit maximum |
| SpoolRuns.ReaderNeverRejectsSize | crates/evertrace-capture/src/spool.rs:871-873 | after every run the reader's size test rejects only empty segments |
| Spool.DurableSpool.MainUsage | crates/evertrace-capture/src/spool.rs:1468-1478 | file count and saturating byte sum of the directory |
| Spool.DurableSpool.AppendRefusal | crates/evertrace-capture/src/spool.rs:486-511 | refuses exactly when the record is invalid, the directory is under pressure, the file cannot be opened or is not whole frames; Pressure exactly for the quota |
| Spool.DurableSpool.WriteActive | crates/evertrace-capture/src/spool.rs:512-518 | the file after each possible interruption of write, sync and directory sync |
| Spool.DurableSpool.Append | crates/evertrace-capture/src/spool.rs:486-524 | the new state, including the entries and removals its directory sync makes durable; Ok exactly when the frame is written and synced, Pressure exactly for the quota |
| Spool.DurableSpool.AppendIsolatedSealed | crates/evertrace-capture/src/spool.rs:528-608 | one frame as its own sealed segment, with a handle that acknowledges it whole; a failed one is cleaned up and the directory synced as far as that succeeds |
| Spool.DurableSpool.SealActive | crates/evertrace-capture/src/spool.rs:760-781 | the active file becomes a sealed one with the same bytes under the lowest free index; nothing to do iff there is no active file or it is empty, exhausted iff all 1024 names are taken, an I/O error iff only the sync fails |
| Spool.DurableSpool.IngestPage | crates/evertrace-capture/src/spool.rs:817-989 | returns a page iff the segment is readable at the cursor and the page reader succeeds there, and then exactly that page under the identity of the file; an unreadable segment is quarantined, reported as needing recovery iff a carrier is free and both syncs succeed |
| Spool.DurableSpool.AcknowledgeSegment | crates/evertrace-capture/src/spool.rs:991-1020 | removes the segment exactly for its last page, all frames committed, file unchanged; Ok iff the sync behind it succeeds too |
| Spool.DurableSpool.QuarantineSealed | crates/evertrace-capture/src/spool.rs:1443-1454 | moves a carrier to a free quarantine name, bytes untouched; what is durable after neither, the first or both of the two syncs; Ok iff a name is free and both succeed |
| Spool.DurableSpool.AcknowledgeQuarantine | crates/evertrace-capture/src/spool.rs:1379-1399 | releases a carrier; its sync makes every other carrier's entry durable |
| Spool.DurableSpool.RecoverOne | crates/evertrace-capture/src/spool.rs:1022-1088 | a sealed file is quarantined exactly when it is not non-empty whole frames; Ok iff it is healthy or a carrier is free and both syncs succeed |
| Spool.DurableSpool.RecoverTail | crates/evertrace-capture/src/spool.rs:1022-1088 | cuts exactly the torn tail off the active file, or quarantines a corrupt one, and says how many bytes were cut; Ok iff the syncs that needs succeed and a corrupt file finds a carrier; after a failed sync no more is durable than before |
| Spool.DurableSpool.Recover | crates/evertrace-capture/src/spool.rs:1022-1088 | succeeds iff there are free carriers for all unhealthy segments and a corrupt active file together and every sync needed succeeds; then each of those lies in a new carrier of its own with its bytes, every other sealed file and carrier is as it was, the active file is its old complete prefix and the result counts the bytes cut; in every case a run of recovery steps |
| Recovery.MovedOne | crates/evertrace-capture/src/spool.rs:1443-1454 | moving one more file to a new carrier keeps the account of the others: distinct carriers, same bytes, nothing else touched |
| Recovery.SweepStep | crates/evertrace-capture/src/spool.rs:1022-1054 | one segment of the sweep keeps the relation to the state recovery began in: unhealthy segments seen so far in carriers of their own, carriers and vacancies adding up |
| Recovery.TailDecides | crates/evertrace-capture/src/spool.rs:1056-1085 | behind the sweep, recovery as a whole succeeds iff the active file gets its syncs and, when corrupt, a carrier |
| Spool.DurableSpool.GcCasRefsIntersect | crates/evertrace-capture/src/spool.rs:681-758 | concludes iff nothing is quarantined, bounds hold, every file is whole decodable frames and no record id repeats; then returns exactly the referenced candidates |
| Spool.VisitSealed | crates/evertrace-capture/src/spool.rs:700-758 | the visit of the sealed files in any order succeeds iff budget, cleanness, decoding and id uniqueness over all of them hold |
| Spool.VisitRecords | crates/evertrace-capture/src/spool.rs:748-755 | within a file: fails iff an id repeats or a body does not decode |
| Backup.VerifyBackupFile | crates/evertrace-capture/src/spool.rs:1502-1573 | accepts exactly the files whose length, name and contents fit their kind: whole decodable segments, decodable markers, any quarantined carrier; summarises segments only |
| Backup.FreezeBoundary | crates/evertrace-capture/src/spool.rs:357-484 | succeeds iff every claimed segment verifies, markers decode, carriers and counts are within their limits; describes all records and counts everything |
| Backup.BoundaryAgreesWithFiles | crates/evertrace-capture/src/spool.rs:383-427 | the boundary equals the merge of the per-file summaries: union of references and generations, sum of counts, pointwise maximum of watermarks |
| Backup.DescriptionIsUnique | crates/evertrace-capture/src/spool.rs:462-483 | the declarative description fixes the summary |
| Backup.MergeDescribes | crates/evertrace-capture/src/spool.rs:1502-1573 | merging summaries describes the concatenated records |
| Cas.DeleteInOrderMeaning | crates/evertrace-capture/src/cas.rs:986-1030 | one-by-one deletion: outcome i is Deleted iff the digest was present and i is its first occurrence; what is left is the store minus the batch |
| Cas.GroupByShard | crates/evertrace-capture/src/cas.rs:713-720 | the groups hold each shard's positions in input order |
| Cas.DeleteEntries | crates/evertrace-capture/src/cas.rs:722-738 | one shard's pass equals one-by-one deletion of its digests and succeeds iff every blob it comes to first is framed and can be unlinked; on failure only batch members are gone, the rest unchanged |
| Cas.ShardPasses | crates/evertrace-capture/src/cas.rs:722-738 | a shard's pass goes through iff nothing fails at the positions of the batch that name it |
| Cas.DeleteFromParent | crates/evertrace-capture/src/cas.rs:986-1030 | Missing iff absent; refused iff header or length is damaged or the unlink fails, leaving the shard alone; otherwise exactly that blob is gone, its content unread |
| Cas.CasStore.DeleteGuardedBatch | crates/evertrace-capture/src/cas.rs:700-739 | succeeds iff the guard is exclusive and at no position of the batch a shard is busy, a blob damaged, an unlink or a sync failing; the store and all outcomes then equal deletion in input order; whatever happens, nothing outside the batch is touched and what is left is unchanged |
| Cas.CasStore.Put | crates/evertrace-capture/src/cas.rs:465-496 | adds exactly the payload's blob or finds it intact; fails exactly for an I/O failure or a different stored blob, with the blob in place iff only the last sync failed; keeps all others |
| Capture.NoDanglingReference | crates/evertrace-capture/src/cas.rs:213-255 | over every interleaving from a safe state, with power failures that strike when references are lasting, every reference of the main directory stays backed; those of the quarantine stay backed throughout iff no scan misses one |
| Capture.ActKeeps | crates/evertrace-capture/src/admission.rs:304-334 | every single action keeps the main directory safe, and the quarantine unless it is a scan that misses a reference, which is exactly when it fails; power failures if references are lasting |
| Capture.ScanWindowExactly | crates/evertrace-capture/src/spool.rs:681-698 | after a scan some deletion can take a quarantined record's blob iff a candidate is referred to from the quarantine only |
| Capture.EmptyQuarantineHidesNothing | crates/evertrace-capture/src/spool.rs:681-698 | a quarantine still empty when the scan starts hides nothing |
| Capture.QuarantineInsideWindow | crates/evertrace-capture/src/spool.rs:681-698 | a run from the start: capture, torn append, seal, listing, recovery, scan, deletion; a quarantined record ends without its blob |
| BlobDurability.PowerFailureExactly | crates/evertrace-capture/src/cas.rs:465-496 | every power failure leaves every reference of the main directory backed iff each blob referred to has a durable entry in a durable shard directory; the same for the quarantine |
| BlobDurability.ActLasting | crates/evertrace-capture/src/cas.rs:465-496 | all blobs stay safe from power failures iff the action is not a put that adds a blob without a sync or into a shard directory that is not durable |
| BlobDurability.LastingRun | crates/evertrace-capture/src/cas.rs:465-496 | runs without such puts keep every reference backed through power failures at any time |
| BlobDurability.DeduplicatedPutLosesBlob | crates/evertrace-capture/src/cas.rs:473-489 | a put whose sync fails, a second capture that finds the blob, an Ok append, and a power failure that leaves the frame without its blob |
| BlobDurability.NewShardLosesBlob | crates/evertrace-capture/src/cas.rs:470-489 | the same without any fault for the first blob of a new shard |
| Admission.CaptureRuntime.CaptureInner | crates/evertrace-capture/src/admission.rs:304-484 | the outcome from the stores before and the obstacles: Durable iff the fence is free, the blob is there or can be put, the body encodes and the frame is published on its route; a refused body and a refused isolated segment iff each is reached and fails; every other capture records a gap, for pressure iff the append was reached and its quota refused it; blobs and spool afterwards in each case |
| Admission.CaptureRuntime.RecordGap | crates/evertrace-capture/src/spool.rs:1108-1143 | the lowest free slot takes the marker with its reason, or is spoiled by a failed write; completeness is lost iff none is free or the marker cannot be opened or written |
| Admission.GapTakesLowestFree | crates/evertrace-capture/src/spool.rs:1108-1143 | exactly the lowest free slot changes, to a marker with the given reason or to a spoiled one; with none free or the file not opened nothing changes |
| Admission.RecoveringIsLeftByFailure | crates/evertrace-capture/src/admission.rs:448-483 | captures alone leave Recovering iff one fails, and reach Normal iff the last one then succeeds |
| Canonical.UniqueValue | crates/evertrace-domain/src/canonical.rs:67-119 | two encodings that are prefixes of the same bytes encode the same normal form and end at the same place |
| Canonical.EncodeIsCanonical | crates/evertrace-domain/src/canonical.rs:28-43 | outputs coincide iff tag, version and normalised value coincide |
| Canonical.NormIsReordering | crates/evertrace-domain/src/canonical.rs:67-113 | without duplicate keys, equal normal forms are exactly equality up to reordering map entries at every depth |
| Canonical.EncodeIdentifiesReorderings | crates/evertrace-domain/src/canonical.rs:28-43 | outputs coincide iff tag and version do and the values are recursive reorderings of each other |
| Canonical.EncodeNorm | crates/evertrace-domain/src/canonical.rs:67-113 | sorting maps at every depth does not change the encoding |
| Canonical.EntryOrderIsIrrelevant | crates/evertrace-domain/src/canonical.rs:98-109 | reordering the entries of a map with distinct keys does not matter |
| Canonical.EncodesExactly | crates/evertrace-domain/src/canonical.rs:67-119 | encoding succeeds iff no map at any depth repeats a key and every length fits |
| Canonical.NeighboursFindDuplicates | crates/evertrace-domain/src/canonical.rs:98-104 | comparing neighbours after sorting finds every duplicate key |
| Canonical.WriteValue | crates/evertrace-domain/src/canonical.rs:67-113 | the recursive writer appends exactly the encoding to the shared buffer, or returns its error |
| Canonical.WriteCanonical | crates/evertrace-domain/src/canonical.rs:28-43 | the whole encoder, header included |
| Detect.ScanIsComplete | crates/evertrace-capture/src/protect.rs:331-335 | resuming behind a match finds exactly what probing every position finds, for needles without self-overlap |
| Detect.AssignmentsAreComplete | crates/evertrace-capture/src/protect.rs:331-377 | for each of the seven names a candidate is reported iff a bounded occurrence in any case is followed by blanks, a separator, blanks and that maximal value of at least 8 bytes |
| Detect.AssignedValueIs | crates/evertrace-capture/src/protect.rs:336-376 | the cursor walk behind a name computes the declarative shape of an assignment |
| Detect.BearersAreComplete | crates/evertrace-capture/src/protect.rs:379-424 | a candidate is reported iff a bearer header of the declared shape is there |
| Detect.PemFromSound | crates/evertrace-capture/src/protect.rs:426-453 | every PEM candidate is a block closed by the end marker that repeats its label |
| Detect.PemFromCovers | crates/evertrace-capture/src/protect.rs:426-453 | every closable block starts inside some candidate |
| Detect.PemEndIs | crates/evertrace-capture/src/protect.rs:431-446 | the two searches find the block given by positions: the opening marker, the first private-key label behind it, the first end marker behind that which repeats the label |
| Detect.PemBlocksAreComplete | crates/evertrace-capture/src/protect.rs:426-453 | a block is reported iff it opens outside every reported block before it |
| Detect.CandidatesExactly | crates/evertrace-capture/src/protect.rs:313-329 | a candidate is reported iff it is a reported PEM block, the token of a bearer header or the value assigned to one of the seven names with its kind, each by its declared shape |
| Detect.FindAssignments | crates/evertrace-capture/src/protect.rs:331-377 | the loop appends exactly the detector's candidates |
| Detect.ProbeAssignment | crates/evertrace-capture/src/protect.rs:336-368 | the skip and value loops find the assigned range |
| Detect.FindBearers | crates/evertrace-capture/src/protect.rs:379-424 | the loop appends exactly the detector's candidates |
| Detect.FindPemBlocks | crates/evertrace-capture/src/protect.rs:426-453 | the loop appends exactly the detector's candidates |
| Detect.FindCandidates | crates/evertrace-capture/src/protect.rs:313-329 | the candidates of all detectors in order: exactly the secrets by those shapes |
| Detect.CandidatesWellFormed | crates/evertrace-capture/src/protect.rs:313-453 | every candidate lies in the input and is at least 8 bytes long |
| Redact.ResolveMeaning | crates/evertrace-capture/src/protect.rs:455-475 | the selection is a subset, pairwise disjoint, sorted, and each candidate is selected or overlaps a selected one no lower in (priority, length) and, of equal rank, starting no later |
| Redact.RankByKind | crates/evertrace-capture/src/protect.rs:43-49 | private keys rank above bearer tokens, these above everything else, and within a class length decides |
| Redact.IsolatedIsSelected | crates/evertrace-capture/src/protect.rs:455-475 | a candidate that overlaps no other is always selected |
| Redact.ResolveOverlaps | crates/evertrace-capture/src/protect.rs:455-475 | the sort, greedy loop and re-sort compute that selection |
| Redact.RedactSpans | crates/evertrace-capture/src/protect.rs:477-489 | the splicing loop equals the splice function |
| Redact.RestoreSpliced | crates/evertrace-capture/src/protect.rs:477-489 | putting the removed bytes back at the tokens reconstructs the input |
| Redact.HiddenBytesDoNotShow | crates/evertrace-capture/src/protect.rs:477-489 | inputs that agree outside the spans redact to the same bytes |
| Visibility.ByteShowsExactly | crates/evertrace-capture/src/protect.rs:477-489 | the redacted output depends on a byte of the input iff no selected span covers it |
| Visibility.NestedIsFullyHidden | crates/evertrace-capture/src/protect.rs:455-475 | if of two overlapping candidates the higher ranked contains the other, every candidate is hidden whole |
| Visibility.DroppedCandidateShows | crates/evertrace-capture/src/protect.rs:455-489 | an input whose password is reported, dropped for a bearer token overlapping its end, and stays partly visible |
| Redact.SplicedLength | crates/evertrace-capture/src/protect.rs:477-489 | protected length = raw − span lengths + 10 per span |
| Redact.SpansAccepted | crates/evertrace-capture/src/frame.rs:255-265 | the record-body check accepts exactly ordered, disjoint, non-empty, in-range spans |
| Protect.SpansAreOrdered | crates/evertrace-capture/src/protect.rs:153-167 | the selected spans pass that check for every input |
| Protect.SpansAreTheSecrets | crates/evertrace-capture/src/protect.rs:153-167 | every span is a secret by the declared shapes, every secret is a span or overlaps one that ranks no lower, and one that overlaps no other is a span |
| Protect.Protect | crates/evertrace-capture/src/protect.rs:153-219 | fails only for lengths beyond 64 bits; otherwise the resolved spans, which are secrets and cover or outrank every secret, the spliced bytes and the keyed digest of the removed bytes |
| Protect.PayloadFacts | crates/evertrace-capture/src/protect.rs:153-219 | the digest always encodes, the input is restorable, and the length is at most raw + raw/4 |
| Protect.PayloadDeterminesInput | crates/evertrace-capture/src/protect.rs:168-209 | protected bytes and digest message together determine the raw payload |
| Protect.AdmittedPayloadFitsPage | crates/evertrace-capture/src/spool.rs:937-955 | a payload of at most 1 MiB never exceeds a page's CAS budget by itself |
| Install.OutcomeIsTruthful | crates/evertrace-codex/src/install.rs:1615-1740 | whatever fails and whatever others edit at the checkpoints: Committed means all files hold their desired bytes, Restored means they hold their original bytes |
| Install.ForeignBytesSurvive | crates/evertrace-codex/src/install.rs:1615-1740 | over a whole commit the last thing another party wrote to a file, at any checkpoint reached or before, is there at the end and the outcome is Uncertain |
| Install.PublishSparesForeign | crates/evertrace-codex/src/install.rs:175-242 | publishing replaces a file only while it has its original identity |
| Install.RollbackSparesForeign | crates/evertrace-codex/src/install.rs:244-266 | rolling back replaces a file only while it has the published identity |
| Install.PublicationOrder | crates/evertrace-codex/src/install.rs:1664-1681 | for every failure and every edit: once the registry is published each other file was published and holds its desired bytes unless replaced by another party; the order holds on the whole trace iff the registry is not reached or no late edit happens; a successful rollback of the registry withdraws it |
| Install.RollbackOrderExactly | crates/evertrace-codex/src/install.rs:1714-1722 | a rollback keeps the order iff the registry's own step withdraws it or nothing it needs is taken away |
| Install.EditBreaksOrder | crates/evertrace-codex/src/install.rs:1664-1681 | an edit of the host file between its publication and the registry's breaks the order |
| Install.FailedRegistryRollbackBreaksOrder | crates/evertrace-codex/src/install.rs:1714-1722 | a commit whose registry rollback fails and which ends with the registry new and the host file old |
| InstallOutcome.CommittedExactly | crates/evertrace-codex/src/install.rs:1615-1711 | on files as read: Committed iff prepared, each publication finds the original and no call it makes fails, each checkpoint passes, the last edit of each file behind its publication leaves the identity published, the final check passes, and each backup written is still that file and can be removed, the assets too |
| InstallOutcome.PublishExactly | crates/evertrace-codex/src/install.rs:175-242 | a publication completes iff the path holds the original and none of the calls this file needs fails; then it leaves the new identity and, if there was an original to replace, its backup |
| InstallOutcome.PublishFromExactly | crates/evertrace-codex/src/install.rs:1664-1681 | from any file on, publishing succeeds iff nothing stands in the way of any file, earlier ones staying as published |
| InstallOutcome.RestoredExactly | crates/evertrace-codex/src/install.rs:1654-1740 | Restored iff nothing was begun and the inputs hold, or the publication failed and every file can be taken back: own identity in place, backup intact, no rollback call failing, the other inputs unchanged |
| InstallOutcome.UndisturbedOutcome | crates/evertrace-codex/src/install.rs:1615-1740 | nobody interfering and neither cleanup nor rollback failing: Committed iff every publication and checkpoint goes through, Uncertain iff the first that does not could not read back the identity of the file it had renamed into place, Restored otherwise |
| InstallFiles.InstallFile.Revalidate | crates/evertrace-codex/src/install.rs:151-173 | true iff the path holds exactly the expected identity, or nothing |
| InstallFiles.InstallFile.Publish | crates/evertrace-codex/src/install.rs:175-242 | the object after each failure point equals the publish transition |
| InstallFiles.InstallFile.Rollback | crates/evertrace-codex/src/install.rs:244-266 | the object after each failure point equals the rollback transition |
| InstallFiles.CommitLocked | crates/evertrace-codex/src/install.rs:1615-1740 | the loops over the file objects compute the commit the theorems are about; on files as read, Committed and Restored are returned exactly under the conditions of `CommittedExactly` and `RestoredExactly` |
| Registry.ResolveIsStable | crates/evertrace-codex/src/install.rs:2431-2475 | two successful resolves of a session, any run between them, return the same generation unless a snapshot without the pin was restored |
| Registry.ResolveFollowsPin | crates/evertrace-codex/src/install.rs:2431-2475 | a successful resolve returns the pin and leaves the session pinned; without faults it succeeds iff the session is valid and both registry bounds hold |
| Registry.PinIsStable | crates/evertrace-codex/src/install.rs:2407-2475 | over such runs the pinned generation stays in the registry and compatible |
| Registry.StepPin | crates/evertrace-codex/src/install.rs:2211-2339 | one step keeps a pin iff it is not a restore of a snapshot without it |
| Registry.OlderSnapshotMovesPin | crates/evertrace-codex/src/install.rs:2211-2339 | a run in which a restore moves a session to another generation |
| Registry.RestoreRepins | crates/evertrace-codex/src/install.rs:2237-2339 | a session the snapshot does not pin resolves, if the restored registry can be read, to a generation larger than any in the snapshot |
| Registry.EveryRunIsSound | crates/evertrace-codex/src/install.rs:2861-2881 | after every run generations are strictly ascending, the current one is compatible, and every pin names a compatible entry |
| Registry.PutMeaning | crates/evertrace-codex/src/install.rs:2420-2425 | publishing replaces the entry with the same number, keeps all others, and keeps the order |
| Registry.PublishExactly | crates/evertrace-codex/src/install.rs:2407-2429 | publishing succeeds iff the generation is valid and compatible, the present registry can be read, and there is room for its entry |
| Registry.RestoreExactly | crates/evertrace-codex/src/install.rs:2211-2339 | restoring succeeds iff the snapshot verifies within both bounds, a number is left and the registry has room |
| Registry.RetainedNeverFails | crates/evertrace-codex/src/install.rs:2932-2956 | for pins created by resolving, the retained set is computable iff the registry is there, both of its bounds hold, and there are at most 4096 pins |
| Registry.TooManySessions | crates/evertrace-codex/src/install.rs:2431-2475 | 4097 resolving sessions make the retained set fail |
| Registry.TooManyPinsIsPermanent | crates/evertrace-codex/src/install.rs:2993-3003 | from then on it fails on every run without a restore |
| Registry.RetainedExactly | crates/evertrace-codex/src/install.rs:2932-2956 | it holds exactly the current generation, its largest compatible predecessor and all pins |
| Registry.CommitReadable | crates/evertrace-codex/src/install.rs:1625-1641 | a committed registry can be read back iff there was room for one more entry and for its text |
| Registry.PublishReadable | crates/evertrace-codex/src/install.rs:2407-2429 | a published registry can be read back iff its text is at most one MiB |
| Registry.RestoreReadable | crates/evertrace-codex/src/install.rs:2237-2339 | the same of a restored one |
| Registry.PublishingOverflowsText | crates/evertrace-codex/src/install.rs:3089-3097 | under a data root of at least 44 bytes, publishing 4095 generations in turn makes the registry unreadable |
| Registry.UnreadableIsPermanent | crates/evertrace-codex/src/install.rs:2751-2762 | an unreadable registry stays as it is under every run without a restore |
| Registry.StableLauncher.Publish | crates/evertrace-codex/src/install.rs:2407-2429 | the method computes the publish transition |
| Registry.StableLauncher.Resolve | crates/evertrace-codex/src/install.rs:2431-2475 | the method computes the resolve transition, pin written before the second check |
| Registry.StableLauncher.RetainedGenerations | crates/evertrace-codex/src/install.rs:2477-2492 | the ascending list of exactly the retained set; fails iff that is not computable or a listed generation's files are not in place |
| Registry.LargestBelow | crates/evertrace-codex/src/install.rs:2937-2944 | the loop finds the largest compatible number below the current one |
| ConfinedRead.ReadFirstRecord | crates/evertrace-capture/src/confined_read.rs:530-568 | for any sequence of reads: succeeds iff the first newline is within bound and budget, returns exactly the bytes before it, charges what it read, reads at most bound + 1 bytes; which error otherwise; only an empty read before the end of the file stops it early |
| ConfinedRead.ReadRange | crates/evertrace-capture/src/confined_read.rs:570-651 | a non-empty part of the file at the offset, at most as long as asked, flagged at the end |
| Purge.ChainIsMonotone | crates/evertrace-domain/src/purge.rs:139-167 | along a chain identity never changes and time and ordinal never decrease |
| Purge.StageByPosition | crates/evertrace-domain/src/purge.rs:139-167 | Pending, ProjectionClosed, then PhysicalDeleting, Purged only last |
| Purge.ChainIsBounded | crates/evertrace-domain/src/purge.rs:139-167 | a chain has at most its final ordinal plus three records, and nothing extends a purged one |
| Purge.ChainContinuesExactly | crates/evertrace-domain/src/purge.rs:125-167 | which records continue a chain: projection closed, deletion with any positive ordinal or purged at once, deletion with any higher ordinal or purged at the same, at any time not before the last; nothing after purged |
| Purge.BoundIsTight | crates/evertrace-domain/src/purge.rs:125-167 | for every ordinal there is a chain that attains the bound |

## Left out

- SHA-256, HMAC, zstd, JSON and TOML are uninterpreted or absent; a blob is its decoded bytes and one flag for an intact envelope. Of the registry's JSON only the length is modelled.
- Record bodies are opaque apart from CAS reference, observation id, protected length, source and sequence.
- Unix ownership, modes, symbolic links, directory handles and lock acquisition; a file's identity is its inode and content in the spool, and a stamp in the installer with the assumption that equal stamps mean equal bytes.
- Renames and removals that a power loss undoes: a file whose old entry is the durable one survives but stays where the rename put it, an acknowledged or deleted file does not reappear, and a truncated tail does not come back.
- The directories `main`, `quarantine`, `emergency` and `blobs` themselves: they exist durably when a run begins. Opening a store creates them without syncing their parent.
- Damage to files by anything but torn writes and power losses.
- The encoding of emergency gap markers.
- The store that owns references after acknowledgement, the collector's choice of candidates, and its scheduling: candidates are arbitrary.
- The order in which recovery visits the sealed segments: any order is allowed, and success and its result do not depend on it.
- Claiming several segments at once, and the limits on how many are listed: a page is read from one named segment.
- Environment edits in the installer happen at the code's checkpoints, not between an identity check and the rename that follows it.
- `validate` and asset handling of an unpublished package beyond the host configuration and service unit; generation directories and their staging.
- Deadlines, path confinement and change detection by identity while reading a first record.
- Object deletion ledgers and reauthorization; host probing, policy, configuration, query, recovery bundles, the command line and the daemon: long decision ladders, parsers and plumbing.
- Validator.ValidateActiveFile: which error a rejected file gets may differ from the one-shot scan, as in the code; the set of accepted files is the same.
- Backup.FreezeBoundary: does not list the files with their paths, identities and times; it states the semantic totals.
- Install.PublicationOrder: a registry that already shows the new bytes without having been published by the transaction is not its doing and does not count.
- Capture.NoDanglingReference: one collector; the exclusive fence admits no second.
