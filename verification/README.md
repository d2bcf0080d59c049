# Verified model of the observe server's durable state

This project models the parts of the server whose promises are hardest to keep, and proves them with
Dafny 4.11. `dafny verify dfyconfig.toml` checks everything.

- **Backups.** `BackupCrypto` is the chunked authenticated-encryption stream: writer, reader, and the
  theorem that what a reader accepts is exactly one closed archive. `Archive`, `ArchiveCheck`,
  `ArchiveShape` and `ArchiveReconcile` are the entries of an archive, what makes a good one, and the
  preflight check of a restore; `ArchiveDump`
  is the producer, `ArchiveRestore` and `ArchiveApply` the apply pass, `ArchiveTrip` ties them
  together under every fault, and `EncryptedTrip` adds the encryption. `KvNamespace`, `KvCollect`, `KvRead` and `KvSnapshot` are the
  double-collect read of the source-map namespace while other clients write to it, and `KvReturn` a
  history that defeats it; `KvArchive` links it to the restore. `DumpLease` is the timed snapshot
  lease, and `DumpMoment` follows lease and pinned namespace through dump and restore.
- **Audit chain.** `AuditHash` is the MAC input and key selection; `ChainWalk`, `KeysetPages`,
  `FirstBreak` and `PagedChain` are the paged verifier over rows of any type; `AuditVerify` instantiates it for audit
  rows and proves that one hash anchors all history before it. `AuditService` is the writer, and
  `AuditRuns` the state machine of writer, restarts, checkpoints and concurrent verifications.
  `AuditKeys` is the agreement of racing processes on one key file, and the keyring.
- **Cohorts.** `StaticMembers` and `StaticCohorts` are the versioned membership store, `CohortList`
  the list over all cohorts of a site and the pages of members; `RuleTree` and
  `RuleEval` the boolean rule tree, its checks, its meaning and its bounded evaluation; `CohortUpdate`
  joins the two.
- **Bounded tables.** `OidcFlows`, `AuthGuard` and `PrincipalLimiter`, each against the unbounded
  ideal it stands for.

`Common` and `StringOrder` hold shared shapes. Code that changes state is a class whose methods are
proved against a specification; code that computes a value is a function. What a program cannot
choose is a parameter: how each write to a store ends (`WriteOutcome`: done, failed and not done,
failed and done all the same), which file operation or query fails, what other clients write between
two calls, what the clocks show. Every theorem holds for all of them.

Cryptography enters by its ideal laws only: the AEAD opens what was sealed under a nonce and nothing
else (`Ideal`, shown satisfiable by `IdealAeadExists`). Of the MAC nothing is assumed: where a
conclusion rests on it, the alternative is two different messages that the MAC takes to one hash under
keys the verifiers hold (different keys for one message do not count). The key file codec has the
laws `AuditKeys.Sound`, met by `SoundCodecExists`.

Places where the code is not quite what it promises, each stated exactly:

- The completeness check of a key-value restore reads an absent string as no bytes, so a write that
  the engine reported and lost goes unseen when the archived string is empty, and only then
  (`ArchiveApply.ReadBackSeesAllButEmptyStrings`; `ArchiveApply.LoseEmptyString` is the run).
- The preflight check speaks of a trailing completion record but accepts the entries of an archive in
  any order (`ArchiveTrip.OrderIsNotChecked`, `ArchiveTrip.RecordFirstIsAccepted`).
- `Verify` reports what one plain pass does, except when a page it reaches ends between two rows of
  one number: that number is reported, and the first break is missed exactly when the page holds one
  at a lower number (`PagedChain.VerifyPages`, on a table that does not change meanwhile;
  `PagedChain.BoundaryDuplicateMasksFirstBreak` is the run).
- A restored row equals the dumped one exactly when no JSONB column held an empty string
  (`ArchiveTrip.SameRowBack`).
- A dumped key-value string is taken back exactly when its line, with the value in base64, fits the
  restore's line limit: up to about 240 MiB, not the 256 MiB of the value limit
  (`KvArchive.LongestRestorableString`).
- Two equal reads of the namespace are what it held when the second one listed exactly when no key has
  another state that both reads could have found while they agreed on the rest
  (`KvCollect.EqualReadsPinExactly`). The argument in the source, that keys do not return to an earlier
  state, is a sufficient case (`KvCollect.DoubleCollect`); one key that does return is enough to defeat
  two reads in key order and the relist after them (`KvReturn.OneReturningKeyIsEnough`).
- The lease margin covers a clock gain of exactly its own size (`DumpLease.MarginIsTheSkew`).
- A deleted cohort is hidden exactly when its version was below the largest 64-bit number; at the
  largest, the next version wraps round (`StaticCohorts.Service.Delete`).
- `Create` of a rule cohort says that a failed first count still saves the cohort; it is refused, so a
  cohort that shows always has its exact count (`CohortUpdate.Create`).
- A service with a keyring but no signer keeps the key id its caller supplied; such a row verifies
  exactly when the id is empty, or known with a key that hashes the row as the empty key does
  (`AuditRuns.SignedVerifiesExactly`). No caller in the repository sets the id.

## Model

| member | source | states |
|---|---|---|
| BackupCrypto.IdealAeadExists | internal/backup/crypto.go:80-103 | the laws assumed of AES-GCM can be met together, whatever has been sealed |
| BackupCrypto.NonceInjective | internal/backup/crypto.go:106-119 | prefix, counter and final flag determine the nonce and are determined by it |
| BackupCrypto.NoncesAreDistinct | internal/backup/crypto.go:106-135 | all chunks of one archive are sealed under pairwise different nonces, up to the 2^24 guard (section 3.1 of RFC 5116) |
| BackupCrypto.EncryptWriter.WriteChunk | internal/backup/crypto.go:121-135 | one chunk appended under the next counter, byte by byte as the format says, or an error once the counter is exhausted or the destination refuses |
| BackupCrypto.EncryptWriter.Write | internal/backup/crypto.go:137-155 | however a write is split, accepted plaintext is the sealed chunks of 64 KiB plus the buffer; never an error while the destination accepts and chunks remain |
| BackupCrypto.EncryptWriter.Close | internal/backup/crypto.go:160-180 | the rest is sealed as the one final chunk, once |
| BackupCrypto.DecryptReader.FillChunk | internal/backup/crypto.go:213-267 | one step of reading: every refusal and the end of stream, in the code's order |
| BackupCrypto.DecryptReader.Read | internal/backup/crypto.go:269-278 | any buffer size takes a prefix of what is left, and end or failure are reported only when nothing is left |
| BackupCrypto.DecryptReader.ReadAll | internal/backup/crypto.go:269-278 | draining with any sequence of buffer sizes hands out exactly the meaning of the stream |
| BackupCrypto.OpenStream | internal/backup/crypto.go:182-206 | a stream is opened or refused as its header says, and its meaning is unchanged |
| BackupCrypto.ClosedReadsBack | internal/backup/crypto.go:213-267 | from any chunk of a closed archive on, the reader returns the plaintext sealed from there and then ends cleanly |
| BackupCrypto.AcceptedIsOneClosedArchive | internal/backup/crypto.go:106-135 | a byte stream reads cleanly if and only if it is, byte for byte, one closed archive sealed under the key; then it reads as that archive's plaintext |
| BackupCrypto.HandedOutIsSealed | internal/backup/crypto.go:213-278 | whatever the bytes, what a reader hands out before it stops is the plaintext of the first chunks of one archive, sealed in the order they stand at the front of the stream |
| BackupCrypto.ProperPrefixIsRefused | internal/backup/crypto.go:213-267 | no proper byte prefix of an archive reads cleanly |
| BackupCrypto.UnclosedIsRefused | internal/backup/crypto.go:160-180 | a stream whose writer was never closed does not read cleanly |
| BackupCrypto.WriteThenRead | internal/backup/crypto.go:121-278 | any pieces written, closed and read with any buffers come back as their concatenation and then end of stream |
| Archive.ValidateTableRows | internal/backup/restore.go:412-427 | accepts an entry exactly when every line is a nonempty object with safe column names under the line limit, and counts its rows |
| Archive.ValidateKvRows | internal/backup/restore.go:384-405 | the same for key-value lines, with no key twice |
| Archive.DecodeKvRow | internal/backup/kvsrcmap.go:510-559 | a line is accepted exactly when key and content are within the namespace and the budgets |
| ArchiveCheck.CheckEntry | internal/backup/restore.go:203-251 | an entry passes exactly when it is well formed and repeats no manifest, record, section or table |
| ArchiveCheck.WalkEntries | internal/backup/restore.go:195-252 | the walk succeeds exactly on intact archives of such entries, and knows manifest, record and counts |
| ArchiveReconcile.CheckDeclarations | internal/backup/restore.go:264-280 | no name declared twice and no unknown section |
| ArchiveReconcile.CheckResults | internal/backup/restore.go:281-315 | the completion record is sound: known declared names, no negative counts, none twice, none failed |
| ArchiveReconcile.CheckCounts | internal/backup/restore.go:330-355 | table entries and results agree in both directions |
| ArchiveReconcile.CheckKv | internal/backup/restore.go:360-377 | the key-value section reconciles with its declaration and its result |
| ArchiveReconcile.ChecksBalance | internal/backup/restore.go:317-377 | the separate checks together amount to the three-way balance of declared, recorded and present |
| ArchiveReconcile.ValidateArchive | internal/backup/restore.go:179-379 | accepts an archive if and only if it is intact and well made: one readable manifest and completion record that agree with sound entries; returns its manifest |
| ArchiveShape.AcceptedIsWellMade | internal/backup/restore.go:179-379 | the check, step by step, amounts to a description of the archive entry by entry and line by line, limits included |
| ArchiveDump.TarWriter.Write | internal/backup/backup.go:451-465 | an entry is appended whole and reported, or the sink is broken from then on, whether the entry got through or not |
| ArchiveDump.DumpTable | internal/backup/backup.go:363-449 | a failed table leaves no entry, a missing one counts as empty, any other is written with its exact row count |
| ArchiveDump.DumpTables | internal/backup/backup.go:305-318 | after every table the results say what happened, and while none failed everything is in the archive |
| ArchiveDump.DumpTar | internal/backup/backup.go:246-354 | a stream ends with a clean completion record only if the whole source was read inside the lease; success means the whole archive was written, and nothing failing means success |
| ArchiveTrip.AcceptedIsWhole | internal/backup/backup.go:231-354 | whatever failed during a dump and wherever its stream was cut, what is accepted is the whole archive of a source read without failure |
| ArchiveTrip.WholeIsAccepted | internal/backup/restore.go:179-379 | a whole archive is accepted if and only if every line of it meets the decoder's limits |
| ArchiveTrip.DumpThenRestore | internal/backup/restore.go:72-103 | the round trip under every fault: a restore that reports success has reproduced exactly the source's rows, and its keys up to lost empty strings; anything not read, cut or not restorable is refused with nothing written |
| EncryptedTrip.RestoreEncrypted | internal/backup/restore.go:72-103 | whatever the bytes: unless they are exactly one archive that a dump sealed whole, nothing is written, and a reported success has reproduced that dump's source |
| EncryptedTrip.CutIsNotWhole | internal/backup/crypto.go:213-267 | an encrypted dump cut at any byte is no such archive |
| EncryptedTrip.FailedDumpIsNotWhole | internal/backup/backup.go:231-244 | nor is the stream of a dump that failed to read something, though its encryption was closed properly |
| DumpMoment.AcceptedIsOneMoment | internal/backup/lease.go:59-154 | an accepted archive of a leased dump has every read inside the engine's lease, and every table as it stood when the lease was granted |
| DumpMoment.NamespaceIsOneMoment | internal/backup/kvsrcmap.go:17-30 | what a restore leaves of the namespace is its state at one instant of the dump, if no key returned meanwhile |
| DumpMoment.BackUpAndRestore | internal/backup/backup.go:246-354 | from the live stores to the restored ones: a reported success leaves the tables as of the grant and the namespace as two equal reads showed it; a refusal writes nothing; when nothing goes wrong a source within the limits comes back |
| ArchiveTrip.SameRowBack | internal/backup/restore.go:623-644 | a dumped row comes back unchanged if and only if no JSONB column held an empty string |
| ArchiveTrip.OrderIsNotChecked | internal/backup/restore.go:195-262 | acceptance is the same for every permutation of the entries |
| ArchiveTrip.AnyOrderIsAccepted | internal/backup/restore.go:195-262 | the entries of a dump, in any order, are accepted if and only if the source is restorable |
| ArchiveTrip.RecordFirstIsAccepted | internal/backup/restore.go:195-262 | every restorable source has an accepted archive whose completion record comes first |
| StringOrder.SortStrings | internal/backup/restore.go:647-653 | the columns of an insert in ascending order, sorted in place |
| StringOrder.SortKeeps | internal/backup/restore.go:647-653 | sorting keeps every string and puts them in ascending order |
| ArchiveRestore.Target.InsertBatch | internal/backup/restore.go:555-571 | a batch lands whole or not at all, and a reported success landed |
| ArchiveRestore.Target.RestoreTable | internal/backup/restore.go:508-553 | the rows written are a prefix of the entry in whole batches, all of them on success |
| ArchiveApply.PutLine | internal/backup/kvsrcmap.go:586-614 | one archived key moves towards its content and no other key changes |
| ArchiveApply.ApplyKvSection | internal/backup/kvsrcmap.go:569-668 | success means every archived value, member and exact score reads back, even if writes were silently dropped on the way |
| ArchiveApply.ReadBackSeesAllButEmptyStrings | internal/backup/kvsrcmap.go:618-631 | passing the completeness check means complete, over all the stores a restore can leave, if and only if no archived string is empty |
| ArchiveApply.LoseEmptyString | vendor/github.com/neutron-build/neutron/go/nucleus/kv.go:58-72 | for every accepted archive with an empty string, a run into an empty target that reports success without that key |
| ArchiveRestore.CompleteIsMerged | internal/backup/kvsrcmap.go:618-667 | a completely restored key holds what was archived and what the target already held |
| ArchiveApply.ApplyArchive | internal/backup/restore.go:459-490 | success applies every entry; a failure leaves whole batches from the front of each table and touches archived keys only |
| ArchiveApply.RequireEmpty | internal/backup/restore.go:112-144 | a target with a row in a restorable table, or a blob key when the archive has the section, is refused |
| ArchiveApply.Restore | internal/backup/restore.go:72-103 | refused if and only if not accepted, and then nothing is written; success puts every row of every line in its table, cell by cell and in order, and every archived key when no archived string is empty; a target that is not empty is refused |
| KvCollect.EqualReadsPinExactly | internal/backup/kvsrcmap.go:17-30 | every two equal consecutive reads are the covered namespace as the second listed it, if and only if no key has another state in common to both where all keys have one |
| KvCollect.NoReturnSuffices | internal/backup/kvsrcmap.go:17-30 | the condition holds if no key returns to an earlier state |
| KvCollect.DoubleCollect | internal/backup/kvsrcmap.go:17-30 | so then two equal consecutive reads are the covered namespace at one instant between them |
| KvCollect.SameListed | internal/backup/kvsrcmap.go:257-267 | two reads with the same content listed the same blob keys |
| KvReturn.OneReturningKeyIsEnough | internal/backup/kvsrcmap.go:171-234 | with one key that returns, two equal reads in key order and an agreeing relist of a namespace that never existed |
| KvRead.EqualSpools | internal/backup/kvsrcmap.go:368-396 | true exactly when the two files are equal |
| KvRead.SrcmapSites | internal/backup/kvsrcmap.go:326-357 | exactly the sites the listed keys name, encoded after "srcmap:v2:" or plainly after "srcmap:" |
| KvNamespace.BlobKeys | internal/sourcemaps/sourcemaps.go:424-434 | both forms in which blob keys are written name their site, whatever follows |
| KvNamespace.CoveredIsNamespace | internal/backup/kvsrcmap.go:249-299 | what a read of one instant covers is every listed blob, the releases and ages of every site a blob names, each with its content, and nothing else |
| KvRead.KeysToVisit | internal/backup/kvsrcmap.go:268-320 | the listed keys and the two index keys of every site they name, sorted, and nothing else |
| KvRead.ReadKVSnapshot | internal/backup/kvsrcmap.go:268-320 | one read between two instants, in a spool file of its own; on any error that file is gone, and a failed call or file operation is told apart from a key that vanished |
| KvSnapshot.StringKeysOf | internal/backup/kvsrcmap.go:238-247 | the blob keys of a snapshot, sorted |
| KvSnapshot.LinesDetermined | internal/backup/kvsrcmap.go:105-110 | sorted lines are determined by their content, so equal namespaces give identical sections |
| KvSnapshot.Compare | internal/backup/kvsrcmap.go:171-234 | agreement means equal files and an agreeing relist |
| KvSnapshot.StableKVSnapshot | internal/backup/kvsrcmap.go:171-234 | success leaves one spool file pinned to one instant inside the second of two reads that agree, failure none; it gives up after five reads and not before, retries for a key that vanished and for no failure; undisturbed it succeeds with the namespace, key by key |
| KvArchive.LongestRestorableString | internal/backup/kvsrcmap.go:672-676 | an archived string is taken back exactly when its base64 line fits the scanner, so never at the value limit itself |
| KvArchive.SnapshotIsRestorable | internal/backup/kvsrcmap.go:506-559 | a converged snapshot is restorable exactly when its keys and values are within the restore's budgets |
| DumpLease.LeaseTimeout | internal/backup/lease.go:77-84 | a configured timeout is used when it is in range and ignored otherwise |
| DumpLease.AcquireDumpLease | internal/backup/lease.go:96-122 | the window runs from before the call; a reply too late, another holder and an old engine are told apart |
| DumpLease.LeasedDumpIsOneMoment | internal/backup/lease.go:140-154 | every read of a dump that passes the closing check was inside the engine's own lease, however late its reply |
| DumpLease.MarginIsTheSkew | internal/backup/lease.go:140-154 | that holds for clocks gaining up to a skew if and only if the skew is at most the margin |
| DumpLease.WindowFromTheReplyIsNotEnough | internal/backup/lease.go:97-102 | a window started at the reply would pass dumps with reads outside the lease |
| AuditHash.EncodeFieldsInjective | internal/audit/audit.go:144-167 | the length-prefixed encoding determines the fields |
| AuditHash.MessageInjective | internal/audit/audit.go:144-167 | equal MAC inputs come from rows equal in every hashed field |
| AuditHash.VerifiedRowHasKey | internal/audit/audit.go:190-241 | a row that verifies was hashed under the key its match names |
| ChainWalk.WalkRowsSound | internal/audit/audit.go:376-393 | a walk that goes on has seen a valid chain, and holds its end, length and unkeyed count |
| ChainWalk.WalkRowsComplete | internal/audit/audit.go:376-393 | a walk over a continuation of a valid chain goes on |
| ChainWalk.ConcludeMeaning | internal/audit/audit.go:396-438 | the closing comparison is intact exactly when the walked chain meets the checkpoint, with exact counts |
| ChainWalk.PassTells | internal/audit/audit.go:373-433 | a report of one pass names the first row that does not continue the chain and why, or the checkpoint that is not met |
| KeysetPages.PageTakesAll | internal/audit/verification_reader.go:47-49 | a page up to a number no row straddles is exactly the rows up to that number |
| FirstBreak.StraddleDecides | internal/audit/audit.go:357-371 | where the page guard stops, one pass breaks too, and at that number if and only if the page holds no break at a lower one |
| KeysetPages.SortOfWindow | internal/audit/verification_reader.go:47-49 | selecting a range of numbers and ordering by number commute |
| PagedChain.VerifyPages | internal/audit/audit.go:332-438 | on a still table intact means the ordered rows are a valid chain meeting the checkpoint; the report is that of one pass, and names its break, exactly when no reached page end repeats a number, or hides a lower break; under appends a chain valid at the snapshot is reported as such |
| PagedChain.BoundaryDuplicateMasksFirstBreak | internal/audit/audit.go:368-371 | a table of 501 rows whose first break at row 1 is reported as a repeated number 500 |
| AuditVerify.Verify | internal/audit/audit.go:332-438 | on a still table intact exactly when the rows in order are numbered, linked and hashed under a key given for their id, and the anchored row is in place; else the first row that is not, and why; it counts the rows that only the empty key explains, and is authenticated exactly when a secret key hashes every row; a growing table is reported by the rows it had, and whatever the page queries see, an intact report has seen such a chain |
| AuditVerify.DigestMeans | internal/audit/audit.go:190-241 | a row verifies exactly when a key given for its id, or for a row without one the empty key, hashes it; it is unkeyed exactly when no secret key does |
| AuditVerify.CountMeans | internal/audit/audit.go:385-433 | in a valid chain the count of unkeyed rows is the number of rows that only the empty key explains |
| AuditVerify.VerifyChain | internal/audit/audit.go:442-462 | accepts exactly the rows numbered from one, each linked to the one before and hashed right |
| AuditVerify.SimpleWalkAgrees | internal/audit/audit.go:442-462 | where one hash function explains every row, the plain walk and the paged verifier accept the same chains |
| AuditVerify.AnchoredHistoryIsUnique | internal/audit/audit.go:144-167 | two valid chains with one hash at a number agree on every hashed field of every row up to it, or hold at one number two different messages with one hash |
| AuditVerify.CheckpointPinsHistory | internal/audit/checkpoint.go:35-50 | a table that verifies against a surviving checkpoint holds the anchored rows unchanged, across key rotation |
| AuditService.DigestPinsHead | internal/audit/checkpoint.go:35-50 | a checkpoint digest that equals a stored copy, made under any signer, is of the same number and head hash, or their two messages collide |
| AuditService.Service.LoadState | internal/audit/audit.go:245-257 | the cached head becomes the stored one, or nothing changes |
| AuditService.Service.Checkpoint | internal/audit/checkpoint.go:76-107 | the checkpoint of the head, digest included, whatever becomes of its insert |
| AuditService.Service.Record | internal/audit/audit.go:481-556 | one row after the head that says what the caller said, its gaps filled in, hashed under the signer's key; the cached head dropped when the insert's outcome is unknown; a checkpoint when the number is due |
| AuditRuns.SignedRowVerifies | internal/audit/audit.go:481-556 | a row the writer signs is one the verifier accepts |
| AuditRuns.RecordKeepsSound | internal/audit/audit.go:481-556 | an append keeps chain, cached head and checkpoints sound however its inserts end |
| AuditRuns.TurnIsSound | internal/audit/audit.go:355-397 | a page turn of a concurrent verification stays on the growing chain |
| AuditRuns.EveryRunIsSound | internal/audit/audit.go:332-556 | in every interleaving of appends, failures, restarts, checkpoints and verifications the rows are one valid chain that only grows, the loaded head is the stored head, checkpoints match their rows, and finished verifications are intact and count the unkeyed rows exactly |
| AuditRuns.SignedVerifiesExactly | internal/audit/audit.go:519-521 | a recorded row verifies if and only if its key id is plain, or known with a key that hashes it as the signer's did |
| AuditRuns.ForeignKeyIdBreaksTheChain | internal/audit/audit.go:519-521 | a valid chain stays valid with such a row appended under the same condition only |
| AuditKeys.FileAfter | internal/audit/keys.go:329-370 | only the creator of an unfinished file changes it |
| AuditKeys.PublishedForGood | internal/audit/keys.go:323-370 | a key file is never replaced: it only grows until it holds a key, and never changes after |
| AuditKeys.OneKey | internal/audit/keys.go:276-370 | in every interleaving, with hard links or exclusive creation, partial writes and crashes, all calls that return return the key in the file |
| AuditKeys.LoserReturnsTheWinnersKey | internal/audit/keys.go:298-304 | a process that lost the race returns the winner's key |
| AuditKeys.SoundCodecExists | internal/audit/keys.go:307-321 | a codec with the laws the agreement rests on exists |
| AuditKeys.PutVerificationKey | internal/audit/keys.go:59-65 | refuses exactly a different key under a taken id |
| AuditKeys.LoadKeyring | internal/audit/keys.go:142-234 | succeeds exactly when every entry names the key it carries and no id is ambiguous; then every id finds its key |
| StaticMembers.NormalizeIds | internal/cohorts/static.go:66-92 | the distinct trimmed ids in first-seen order, exactly when all are valid (at most 256 bytes, no control character) and at most 100 000 |
| StaticMembers.LiveIgnoresOrder | internal/cohorts/static.go:222-241 | membership does not depend on the order or repetition of stored rows |
| StaticMembers.CollapseMembers | internal/cohorts/static.go:226-241 | the live ids are those with a row that no later row of theirs supersedes and no tombstone of its version, with that row's time |
| StaticMembers.BatchDecides | internal/cohorts/static.go:226-241 | rows at a version above all stored ones decide exactly their own ids |
| StaticCohorts.VersionAbove | internal/cohorts/static.go:501-509 | the clock's version if above the high-water mark, the next one if not, or none at the end of 64 bits |
| StaticCohorts.Service.Get | internal/cohorts/cohorts.go:499-527 | the newest summary, unless it is a tombstone |
| StaticCohorts.Service.FetchRows | internal/cohorts/static.go:467-473 | a read that succeeds has every stored row: an overrun of either limit is refused |
| StaticCohorts.Service.ReadStatic | internal/cohorts/static.go:243-260 | exactly the live membership |
| StaticCohorts.Service.NextMemberVersion | internal/cohorts/static.go:477-500 | above every stored row, tombstones included, and above the summary: the clock's time, or one past the highest of them |
| StaticCohorts.Service.InsertMembers | internal/cohorts/static.go:183-203 | some whole chunks from the front landed, all of them on success |
| StaticCohorts.Service.AddMembers | internal/cohorts/static.go:368-416 | success is the union, with exact change and stored counts; any failure lies between; rows are only added, at that version, and the bound stands; an edit that changes nothing rewrites the summary only to repair a count |
| StaticCohorts.Service.RemoveMembers | internal/cohorts/static.go:420-465 | the same for the difference |
| StaticCohorts.Service.AddTwice | internal/cohorts/static.go:396-404 | sending a failed addition again reaches the union and repairs the count |
| StaticCohorts.Service.RemoveTwice | internal/cohorts/static.go:420-465 | sending a failed removal again reaches the difference and repairs the count |
| StaticCohorts.Service.CreateStatic | internal/cohorts/static.go:315-345 | whatever fails, a visible cohort is the one asked for, with its whole list, exact count and the clock's time |
| StaticCohorts.Service.NextUpdate | internal/cohorts/cohorts.go:610-615 | the clock's reading when it is above the version replaced, else exactly one more than that |
| StaticCohorts.Service.Delete | internal/cohorts/cohorts.go:660-684 | the cohort is hidden exactly when a higher 64-bit version existed |
| CohortList.List | internal/cohorts/cohorts.go:529-558 | every cohort exactly as Get shows it, each once, newest first: its newest version unless that is a tombstone |
| CohortList.PageOfMembers | internal/cohorts/cohorts.go:705-717 | the page the request names, even when offset plus limit wraps round |
| CohortList.PagesJoin | internal/cohorts/cohorts.go:686-718 | page after page is the whole list |
| CohortUpdate.Create | internal/cohorts/cohorts.go:456-494 | whatever fails, a rule cohort that shows has a definition that passes every check, its exact count and the clock's time; where every write and query works, a usable rule on a small site is created |
| CohortUpdate.Update | internal/cohorts/cohorts.go:568-631 | the new name and description with an exact count, from the list of a static cohort or the users the new rule denotes, at the clock's version or one past the one it replaces; a change of kind or a bad rule is refused, and an ordinary update succeeds |
| CohortUpdate.UpdateThenDelete | internal/cohorts/cohorts.go:610-684 | after an update of any outcome a deletion that succeeds hides the cohort, while version and clock are short of the end of 64 bits |
| CohortUpdate.Refresh | internal/cohorts/cohorts.go:633-651 | the same cohort with an exact count |
| CohortUpdate.AfterDelete | internal/cohorts/cohorts.go:499-527 | no operation brings a deleted cohort back |
| RuleTree.FlatIsTree | internal/cohorts/tree.go:65-82 | a flat definition and the tree with its rules as leaves have one normal form |
| RuleTree.CheckMixing | internal/cohorts/tree.go:124-143 | accepts exactly definitions whose nodes have one shape each |
| RuleTree.CheckNode | internal/cohorts/tree.go:145-174 | accepts exactly well-formed trees within the depth limit, and counts their leaves |
| RuleTree.ValidateDefinition | internal/cohorts/tree.go:99-121 | accepts exactly the definitions of the allowed shape and size: one condition under "not", one to thirty otherwise, and the parts of a group likewise |
| RuleTree.ShapedIs | internal/cohorts/tree.go:99-174 | read off the definition: known operators over as many parts as they take, conditions and definitions never mixed, nothing static inside, at most four levels and thirty conditions |
| RuleTree.TowerShape | internal/cohorts/tree.go:145-174 | a condition may stand inside three groups and no more |
| RuleTree.GroupMembers | internal/cohorts/tree.go:294-346 | a user is in a conjunction when in every child, in a disjunction when in some child |
| RuleTree.DefinitionSelects | internal/cohorts/tree.go:294-346 | user by user: a definition selects who is in each part, in some part, or known to the site and not in its one part |
| RuleEval.UnionSets | internal/cohorts/tree.go:251-274 | refuses exactly when the union is over the limit |
| RuleEval.IntersectSets | internal/cohorts/tree.go:238-249 | the intersection, whichever side is smaller |
| RuleEval.DifferenceSets | internal/cohorts/tree.go:277-285 | the difference |
| RuleEval.Evaluation.Bounded | internal/cohorts/guard.go:56-73 | an answer within both limits is the whole answer; nothing is truncated silently |
| RuleEval.Evaluation.EvalPropertyRule | internal/cohorts/cohorts.go:304-353 | the users a property condition selects, "!=" included |
| RuleEval.Evaluation.EvalEventRule | internal/cohorts/cohorts.go:252-298 | the users with enough events in the window |
| RuleEval.Evaluation.Universe | internal/cohorts/cohorts.go:182-192 | all identified users, loaded once |
| RuleEval.Evaluation.EvalNode | internal/cohorts/tree.go:297-346 | an answer is the set the tree denotes, "not" being everyone known to the site but not in its child, bounded on the way, with no more leaves run than it has and no query failed; a feasible tree within the budget is answered |
| RuleEval.EvaluateCohort | internal/cohorts/cohorts.go:149-199 | user by user the ids of all parts, of some part, or of the site without those of the one part; for a condition those with a matching property, without one, or with enough events; each once, within 30 leaves, one universe load and the scan budget; a wrong shape is refused before any query; on a site of 200 000 users every usable definition is answered |
| OidcFlows.FlowTable.StoreFlow | internal/auth/oidc.go:344-363 | a live flow is pushed out only when ten thousand logins started within the last ten minutes; the live front of a full queue is |
| OidcFlows.FlowTable.TakeFlow | internal/auth/oidc.go:365-379 | a flow is handed out at most once and never after its expiry, and while none was pushed out exactly as an unbounded table would |
| OidcFlows.FullQueueIsRecent | internal/auth/oidc.go:83-88 | a live front makes every queued login recent |
| AuthGuard.Guard.Begin | internal/authguard/authguard.go:126-145 | blocked exactly when the address has used up its budget in an open window, which with room for every address the log of failures alone decides; a cached refusal is the store's own; a key the store accepts is always looked up |
| AuthGuard.Guard.Refused | internal/authguard/authguard.go:154-161 | the refusal is remembered for its lifetime, within the table's bound |
| AuthGuard.Guard.EvictNeg | internal/authguard/authguard.go:164-180 | expired entries go, or half of a full live table; nothing live changes |
| AuthGuard.Guard.RecordFail | internal/authguard/authguard.go:193-215 | one more failure in the address's window, within the table's bound |
| AuthGuard.Guard.Validate | internal/authguard/authguard.go:122-162 | the store's verdict unless the address is blocked or the store is out; outages leave no trace, and a refusal whose caller has gone is neither counted nor remembered |
| AuthGuard.Guard.BlockedWasEarned | internal/authguard/authguard.go:182-215 | a blocked address has failed as often as its budget allows since its window opened, each time less than the window's length after the failure that opened it |
| PrincipalLimiter.Limiter.Allow | internal/aiquery/admission.go:74-99 | from the log alone: admitted exactly while fewer than ten were since the present minute began, so always with fewer than ten in the last minute; eviction changes no answer, and a new principal is refused only while 4096 others were admitted in the last five minutes |
| PrincipalLimiter.Limiter.AdmissionBound | internal/aiquery/admission.go:74-99 | over any interval a principal is admitted at most ten times its whole minutes, and twenty more |
| PrincipalLimiter.DrawnUnder | internal/aiquery/admission.go:90-92 | a refill after a minute leaves room for a full bucket under the bound |
| PrincipalLimiter.Limiter.AdmitQuery | internal/aiquery/admission.go:27-60 | at most four slots are taken; a busy answer has spent its token, and a question, context or principal refused has not |

## Left out

- HTTP handlers, SQL text, the engine and its drivers: tables are sequences of rows, and a query is an oracle that may fail.
- JSON, base64, tar and CSV bytes: an archive is a sequence of classified entries of decoded lines; only the encryption layer and the MAC input are modelled as bytes.
- Error texts: refusals are codes, one for each kind of message.
- Environment parsing, key material parsing, file permissions, temporary-file failures of a restore and the 200 GiB spool limit.
- EncryptedTrip.FailedDumpIsNotWhole: by itself it reads one condition off the definition of a whole dump; its substance is in `EncryptedTrip.RestoreEncrypted`, which writes nothing for any other stream.
- ArchiveTrip.SameRowBack: by itself it is one case of the row format; `ArchiveTrip.DumpThenRestore` is what carries every row there and back.
- DumpMoment.BackUpAndRestore: tables and namespace are each of one instant, not of one and the same, as in the source: the lease does not hold up key-value writes. An engine without leases gives the tables no common instant.
- EncryptedTrip.RestoreEncrypted: the tar reader is a function of the bytes, taken to find in what a dump wrote entries of that dump from the front.
- A reader that keeps reading after a trailing-data error gets the final chunk and then end of stream; callers that stop at the first error, as all here do, never see it.
- The plaintext bound: exactly 2^24 full chunks are written but fail at Close, because the final chunk has no counter left; `EncryptWriter.Write` is proved to succeed below that size.
- ArchiveDump.DumpTar: starts after the lease decision; an earlier failure writes no entry at all.
- ArchiveApply.Restore: archived sets and sorted sets are sets and maps, so a hand-made archive that lists one member twice with different scores is not modelled.
- ArchiveRestore.Target.InsertBatch: the statement text, defaults of columns a row does not mention, and constraint violations appear only as a failed batch.
- KvSnapshot.StableKVSnapshot: removing a spool file is taken to succeed (the source ignores a failed removal); writes by other clients happen between calls to the engine, not inside one; the pause between attempts is time only, and index keys whose blobs are all gone are not covered, as in the source.
- DumpLease.LeasedDumpIsOneMoment: the engine is taken to hold the lease for its full timeout once granted.
- Audit rows whose number is NULL, and inserts that surface only after a later read of the head.
- AuditRuns.EveryRunIsSound: runs are shorter than 2^63 - 1 actions, so row numbers do not wrap.
- AuditKeys.OneKey: nobody else edits or deletes the key file while processes start.
- The raw-passphrase reading of the dedicated key and the candidate list for rows without a key id are inputs of `AuditHash.RowMatchKind`, not derived.
- StaticCohorts.Service.Get: the model holds one cohort's rows; rows of other cohorts and sites are never read or written under its id.
- CohortUpdate.Update: the definition is stored as a value, so its JSON text is not modelled.
- RuleEval.EvaluateCohort: the site does not change during an evaluation, and the query slots and timeouts of the guard are not modelled.
- OidcFlows.FlowTable.StoreFlow: states are fresh random strings, and the clock does not run backwards between critical sections.
- AuthGuard.Guard.Validate: SHA-256 is collision free on the keys sent, and the store's verdict on a key does not change; interleaved validations are sequences of `Begin` and `Refused`.
- PrincipalLimiter.Limiter.Allow: the clock does not run backwards between calls.
- Token verification, sessions, ingestion, alerting and the dashboards are not part of this model.
