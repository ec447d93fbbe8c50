# Deltaship in Dafny

A model of the parts of Deltaship, a binary-delta updater, whose correctness is not evident from any single function:

- `Server.dfy`, `ServerRuns.dfy`, `Manifests.dfy`, `Catalog.dfy`: the server's catalogue store. Requests for one application are interleaved step by step
  (mutex lookup and eviction, lock, open, read, write to a temp file, rename, unlock, handle drop); the catalogue itself
  is a sequential machine over a class with in-place operations.
- `Patch.dfy`, `Bytes.dfy`: the bsdiff patch loop on arbitrary bytes, with its output ceiling.
- `Updater.dfy`, `UpdateRuns.dfy`, `Backups.dfy`, `Signatures.dfy`, `Signing.dfy`: the client's update, restore and rollback protocol over files, sidecar
  signatures and tables, every file and database step allowed to fail, and the daemon's downgrade rule.
- `ClientDb.dfy`: the client's tables, with transactions run statement by statement.
- `RateLimit.dfy`, `AuthBackoff.dfy`, `Eviction.dfy`: the two limiters over a bounded table iterated in any order.
- `Download.dfy`: the resumable download against a server that follows RFC 9110.
- `KeyFile.dfy`: printing and parsing signing-key files.
- `Versions.dfy`, `Text.dfy`: version text and precedence (sections 10 and 11 of SemVer 2.0.0), and string helpers.

Where the source updates objects or loops, the model is a class or a method proved equal to a specification function; the
theorems are lemmas about those functions and about whole runs of them. What lies outside the program (copies that tear,
replies, iteration orders, clock readings, what a rename really put on disk) is a parameter, and the theorems hold for
all its values. BLAKE3, Ed25519 and zstd are function values about which nothing is assumed except where a lemma says
that the hash is injective.

Next to the theorems, each operation is described once more in plain terms, by lemmas whose names end in `Is`: what it
answers and changes, field by field, with the constants and texts of the source written out.

Some promises do not hold of the code as stated. The model keeps the code, and a lemma gives the exact condition:

- A catalogue or manifest update that cannot read its file starts from an empty document and overwrites it. Updates are
  lost exactly to such blind commits (`ServerRuns.ReplayLists`), and a run of two tasks that both report success does lose
  one (`ServerRuns.BlindCommitLosesUpdate`); if reads succeed none is lost (`ServerRuns.NoUpdateLost`).
- `latest_version` equals an entry only up to build metadata. It carries the text of an entry except after a
  re-publication, above the pointer, of a version listed with other build metadata (`Catalogs.PublishKeepsLatestEntry`),
  and then a deletion by the listed text does not move it (`Catalogs.DeleteLeavesOtherText`). Publishing 2.0.0+a and 1.0.0,
  setting the latest to 1.0.0, publishing 2.0.0+b and deleting 2.0.0+a is such a run (`Catalogs.StrayingExample`).
- `latest_version` does not always stand for a live entry when there is one, with or without build metadata. Besides the
  run above, it ends on a deleted entry when a deleted version above the pointer is published again, when it is set to a
  deleted text, and when an older version is published after everything was deleted (`Catalogs.LatestCanStrayPlainly`):
  the deletion mark is never taken back, and neither publishing nor setting looks at it. `Catalogs.HealthIsKept` gives the
  exact condition for each operation, and `Catalogs.RunIsHealthy` for whole runs.
- The auth limiter's table is documented as bounded. It exceeds its capacity exactly when it is full of active penalties
  and a new address fails (`AuthBackoff.TableOverflows`), so no bound holds at all (`AuthBackoff.TableIsUnbounded`).
- The penalty `60 * 2^k` capped at 600 is what the wrapping 64-bit product gives exactly while `k < 62`; from then on the
  penalty is zero (`AuthBackoff.PenaltyFollowsLadder`), and an address that fails every ten minutes, with the
  table swept every 30 seconds, is not blocked from its 67th failure on (`AuthBackoff.PatientIsLetGo`).
- A download reported complete is complete only if a 206 reply carried the whole range asked for, since section 15.3.7 of
  RFC 9110 lets a server send less and the code does not read Content-Range (`Download.DoneIsComplete`,
  `Download.ShortRangeIsDone`); and resuming trusts the size of the partial file (`Download.ResumeTrustsSize`,
  `Download.ForeignPrefixIsKept`).
- A failed update is undone exactly when there was a binary before or the new file had not been put in place: a first
  install that fails after its rename stays (`UpdateRuns.FailedUpdateIsUndone`, `UpdateRuns.FirstInstallIsNotUndone`, on
  concrete data `UpdateRuns.FirstInstallStaysExample`).
- A version once recorded cannot be installed again, for instance after a rollback: the files are replaced, the update
  reports failure, and the recorded version stays behind (`UpdateRuns.ReinstallIsNotRecorded`, and as a run of update,
  rollback and update on concrete data `Backups.ReinstallExample`).
- A recorded backup does not stay good for ever: after such a failed re-install the next update copies the newer bytes
  over the earlier version's backup (`Backups.BackupIsLost`). `Backups.BackupStays` gives the exact condition for each
  step, `Backups.BackupStaysThroughout` for whole runs, and in orderly runs no backup is lost
  (`Backups.EveryBackupStaysGood`).

## Model

| member | source | states |
|---|---|---|
| `Versions.ParseShow` | crates/deltaship-core/src/version.rs:93-107 | parsing the displayed text of a valid version gives that version back |
| `Versions.ShowParse` | crates/deltaship-core/src/version.rs:93-107 | text that parses is the displayed text of the parsed version |
| `Versions.ShowIs` | crates/deltaship-core/src/version.rs:93-97 | the displayed text, written out |
| `Versions.PartsAre` | crates/deltaship-core/src/version.rs:99-107 | which pre-release and build texts are accepted, character by character |
| `Versions.CompareTotalOrder` | crates/deltaship-core/src/version.rs:109-162 | comparison is a total order, and its Equal case is `==`, which ignores build metadata |
| `Versions.CompareIsPrecedence` | crates/deltaship-core/src/version.rs:129-162 | comparison is the precedence of section 11 of SemVer 2.0.0, stated without recursion |
| `Catalogs.CatalogFile.UpdateCatalog` | crates/deltaship-server/src/storage.rs:413-458 | search, platform merge and binary-search insertion publish the version and keep the catalogue well-formed |
| `Catalogs.BinarySearch` | crates/deltaship-server/src/storage.rs:446-453 | the insertion point is the number of newer entries |
| `Catalogs.CatalogFile.SetLatestVersion` | crates/deltaship-server/src/storage.rs:618-654 | the pointer moves only to the text of an entry, every other case is refused with its error |
| `Catalogs.CatalogFile.DeleteVersion` | crates/deltaship-server/src/storage.rs:1290-1380 | the directory is marked, the pointer moves off a deleted text, and the order is kept |
| `Catalogs.PickGreatest` | crates/deltaship-server/src/storage.rs:1335-1371 | the replacement is the text of a live entry, no live entry has a greater one in plain string order, and there is none only if no entry is live |
| `Catalogs.PublishIs` | crates/deltaship-server/src/storage.rs:431-458 | where a new version goes, what of a listed one changes and what stays, when the pointer moves, and that no other entry changes |
| `Catalogs.SetLatestIs` | crates/deltaship-server/src/storage.rs:618-654 | each answer of setting the latest version and that nothing else changes |
| `Catalogs.PublishKeepsGood` | crates/deltaship-server/src/storage.rs:431-458 | publishing keeps the list strictly newest first and `latest_version` equal to an entry |
| `Catalogs.SetLatestKeepsGood` | crates/deltaship-server/src/storage.rs:641-654 | so does setting the latest version, which then shows the given text |
| `Catalogs.AfterDeleteKeepsGood` | crates/deltaship-server/src/storage.rs:1335-1371 | so does deleting |
| `Catalogs.DeleteMovesLatest` | crates/deltaship-server/src/storage.rs:1335-1371 | deleting the latest text moves the pointer to a live entry if and only if there is one, and no live text is greater |
| `Catalogs.PublishKeepsLatestEntry` | crates/deltaship-server/src/storage.rs:414-458 | exactly when the pointer keeps carrying the text of an entry |
| `Catalogs.DeleteLeavesOtherText` | crates/deltaship-server/src/storage.rs:1335-1371 | deleting by an entry's text leaves a pointer that shows other build metadata |
| `Catalogs.Serve` | crates/deltaship-server/src/storage.rs:378-675 | every run of publications, set-latest calls and deletions keeps the catalogue well-formed and ends in the specified store |
| `Catalogs.LatestCanStray` | crates/deltaship-server/src/storage.rs:446-458 | for any two texts of one version and an older version, a run leaves the pointer on a deleted entry although a live one is there |
| `Catalogs.StrayingExample` | crates/deltaship-server/src/storage.rs:446-458 | such a run with 2.0.0+a, 2.0.0+b and 1.0.0 |
| `Catalogs.HealthIsKept` | crates/deltaship-server/src/storage.rs:446-458 | for each operation, exactly when `latest_version` keeps standing for a live entry whenever there is one |
| `Catalogs.RunIsHealthy` | crates/deltaship-server/src/storage.rs:378-675 | a run keeps it all along exactly if each of its operations is careful in that sense |
| `Catalogs.LatestCanStrayPlainly` | crates/deltaship-server/src/storage.rs:630-645 | three runs without build metadata, for any two versions, that leave the pointer on a deleted entry beside a live one |
| `Catalogs.PublishOnlyLatest` | crates/deltaship-server/src/storage.rs:446-458 | in publish-only runs the latest version is the first entry |
| `Catalogs.PublishedVersions` | crates/deltaship-server/src/storage.rs:431-453 | a publish-only run lists exactly the published versions |
| `Catalogs.PublishedPlatforms` | crates/deltaship-server/src/storage.rs:432-445 | each with exactly the union of the platforms published for it |
| `Catalogs.PlatformsDoNotRepeat` | crates/deltaship-server/src/storage.rs:437-442 | no entry repeats a platform if no publication does |
| `Catalogs.PublishOrderIrrelevant` | crates/deltaship-server/src/storage.rs:414-458 | the same publications in any order give the same versions, platforms and latest version |
| `Server.MutexSafety` | crates/deltaship-server/src/storage.rs:29-42 | under every interleaving with evictions, all live handles of an app are one mutex and at most one task is inside |
| `Server.StepKeepsMutexInv` | crates/deltaship-server/src/storage.rs:29-42 | each step, including each single visit of an eviction sweep, keeps the mutex invariant |
| `Server.StepKeepsStore` | crates/deltaship-server/src/storage.rs:378-479 | each step keeps files equal to the replay of the history in mutex order, and drafts current |
| `ServerRuns.StepIsTruthful` | crates/deltaship-server/src/storage.rs:378-479 | each step keeps the history exactly the requests and outcomes of the tasks that have reported, each once |
| `ServerRuns.Serializable` | crates/deltaship-server/src/storage.rs:378-675 | every interleaving ends in the documents of running one after another exactly the requests of the tasks that report an outcome, with that outcome, in the order in which the schedule gave them the mutex |
| `ServerRuns.DocumentsStayGood` | crates/deltaship-server/src/storage.rs:378-815 | every interleaving of valid requests keeps catalogues newest first with a listed latest version and manifests with one diff per base |
| `ServerRuns.CatalogRequestsAre` | crates/deltaship-server/src/storage.rs:413-458 | what a publication and a set-latest request make of the document they see |
| `ServerRuns.MissingFileIs` | crates/deltaship-server/src/storage.rs:618-622 | which requests create a missing file and which are refused, and which file each works on |
| `ServerRuns.LoadReports` | crates/deltaship-server/src/storage.rs:537-555 | when a request goes on, is refused or reports an I/O failure after its read |
| `ServerRuns.RenameReports` | crates/deltaship-server/src/storage.rs:460-471 | success is reported exactly when the rename is done |
| `ServerRuns.SweepBeginsWhen` | crates/deltaship-server/src/storage.rs:29-37 | a sweep begins exactly before a new app enters a table of 4096 or more |
| `ServerRuns.VisitIs` | crates/deltaship-server/src/storage.rs:34-37 | a visit drops a mutex exactly if no task holds it |
| `Manifests.UploadIs` | crates/deltaship-server/src/storage.rs:537-563 | an upload sets its platform's artifact, keeps every other and the version, and when it is refused |
| `Manifests.AddDiffIs` | crates/deltaship-server/src/storage.rs:775-793 | a diff registration replaces the diff from the same version of its platform and keeps everything else |
| `Manifests.ArtifactIs` | crates/deltaship-server/src/storage.rs:497-600 | after a history the platforms are those at first and those uploaded, each with the last upload's checksum and size |
| `Manifests.DiffsAre` | crates/deltaship-server/src/storage.rs:728-815 | after a history the diffs are those registered, or there at first, that nothing later replaced |
| `Manifests.NoUploadLost` | crates/deltaship-server/src/storage.rs:497-600 | when reads succeed, every interleaving lists exactly the platforms at first and of the uploads that report success, each with the artifact of the last in mutex order |
| `ServerRuns.ReplayLists` | crates/deltaship-server/src/storage.rs:413-458 | a version is listed exactly if published or there at first, with no later update that started blind |
| `ServerRuns.BlindCommitLosesUpdate` | crates/deltaship-server/src/storage.rs:413-458 | for any two different versions there is a run in which both updates report success and only the second is listed |
| `ServerRuns.NoUpdateLost` | crates/deltaship-server/src/storage.rs:378-479 | when reads succeed, the catalogue lists exactly what it listed at first and the version of every update task that reports success |
| `Server.AddDiffReplaces` | crates/deltaship-server/src/storage.rs:784-793 | adding a diff replaces the one from the same version, keeps all others, and no version gets two |
| `Patch.ReadFullOrEof` | crates/deltaship-diff/src/apply.rs:134-152 | a control record is read in full, or the clean end or a short read is told apart |
| `Patch.BoundedPatch` | crates/deltaship-diff/src/apply.rs:61-126 | the loop computes the script semantics of the patch and never holds more than the ceiling |
| `Patch.ApplyRecord` | crates/deltaship-diff/src/apply.rs:80-124 | one record appends its mixed and literal bytes and moves in the old file, or fails as the script does |
| `Patch.CeilingIsExact` | crates/deltaship-diff/src/apply.rs:50-126 | the bounded outcome is the unbounded one or a size refusal; success with n bytes stays success exactly if n fits |
| `Patch.PatchMeaning` | crates/deltaship-diff/src/apply.rs:61-126 | a patch yields an output exactly if replaying its records inside the old file yields it and it fits |
| `Patch.FirstFailureIs` | crates/deltaship-diff/src/apply.rs:72-124 | which failure is reported, in the order of the checks, with the constants written out |
| `Patch.MixIs` | crates/deltaship-diff/src/apply.rs:116-118 | mixed bytes are sums modulo 256 |
| `Patch.SeekIs` | crates/deltaship-diff/src/apply.rs:158-167 | the top bit of a seek is its sign |
| `Patch.SeekRoundTrip` | crates/deltaship-diff/src/apply.rs:158-167 | the sign-magnitude encoding of a seek decodes to it |
| `Patch.HeaderRoundTrip` | crates/deltaship-diff/src/apply.rs:72-82 | an encoded control record decodes to its lengths and seek |
| `Patch.CutEncode` | crates/deltaship-diff/src/apply.rs:61-126 | cutting the encoding of a script into records gives the script back |
| `Patch.DiffRoundTrip` | crates/deltaship-diff/src/apply.rs:61-126 | for every old, new and segmentation of new, applying the encoded diff returns new when it fits the ceiling |
| `Patch.NoRawPatchLooksCompressed` | crates/deltaship-diff/src/apply.rs:80-95 | no raw patch that applies starts with the zstd magic number of section 3.1.1 of RFC 8878 |
| `Signing.PayloadBinds` | crates/deltaship-crypto/src/signing.rs:119-148 | equal messages mean equal hashes and equal versions, for 32-byte hashes |
| `Signatures.VerifiedIsSigned` | crates/deltaship-client/src/patcher.rs:925-982 | over every run from registration, the verifier accepted a 64-byte signature of tag, hash and version under the pinned key for every pair counted as verified |
| `Signatures.InstalledIsSigned` | crates/deltaship-client/src/patcher.rs:543-1356 | installed bytes and whole backups are those of registration or have a hash so signed |
| `Signatures.UnsignedIsRefused` | crates/deltaship-client/src/patcher.rs:943-977 | an update whose signature is missing, of another length or not accepted fails and leaves binary, sidecar and tables |
| `Signatures.ForgedBackupIsRefused` | crates/deltaship-client/src/patcher.rs:122-178 | a rollback to a backup whose sidecar is missing or not accepted fails and changes nothing |
| `Signatures.CorruptBackupIsRefused` | crates/deltaship-client/src/patcher.rs:1297-1313 | so does one to a backup that is missing or has another hash |
| `Signatures.InstallsExactlyWhen` | crates/deltaship-client/src/patcher.rs:883-1131 | an execution succeeds exactly under the checks of checksum, signature and landed bytes |
| `Signatures.RollbackStopsIs` | crates/deltaship-client/src/patcher.rs:1324-1356 | what a rollback leaves when a step fails |
| `Signatures.RecordingStopsIs` | crates/deltaship-client/src/patcher.rs:682-741 | what the tables hold when the database work stops |
| `Signatures.BackupPathIs` | crates/deltaship-client/src/patcher.rs:631-638 | where backups lie |
| `Signatures.FallsBack` | crates/deltaship-client/src/patcher.rs:898-924 | every failure of the diff route falls back to the full download |
| `Signatures.DiffIsUsed` | crates/deltaship-client/src/patcher.rs:1179-1235 | otherwise the patched file is used |
| `Updater.Client.BackUp` | crates/deltaship-client/src/patcher.rs:629-675 | binary and sidecar are copied to the backup place; a torn copy fails and is not whole |
| `Updater.Client.ApplyDiffUpdate` | crates/deltaship-client/src/patcher.rs:1137-1235 | checksum, sniffing, decompression and patching, each failure giving up the diff route |
| `Updater.Client.VerifyNewBinary` | crates/deltaship-client/src/patcher.rs:925-982 | passes exactly if checksum and signature over hash and target version are good |
| `Updater.Client.ExecuteUpdate` | crates/deltaship-client/src/patcher.rs:883-1131 | fetch, verify, replace, re-hash and sidecar, with the state left by a failure at each step |
| `Updater.Client.RecordSuccess` | crates/deltaship-client/src/patcher.rs:682-741 | the database steps in order, with the tables left when one fails |
| `Updater.Client.ApplyUpdate` | crates/deltaship-client/src/patcher.rs:543-790 | backup, execution, then recording or restore |
| `Updater.Client.VerifyBackup` | crates/deltaship-client/src/patcher.rs:122-178 | accepts exactly a present sidecar that is good for the backup's hash and recorded version |
| `Updater.Client.RollbackToBackup` | crates/deltaship-client/src/patcher.rs:1286-1356 | checks, copies and database step, with the state left by a failure at each |
| `Updater.ExecuteKeepsOthers` | crates/deltaship-client/src/patcher.rs:925-1121 | an execution adds only verified pairs to the log, and endangers at most the installed file |
| `Updater.ApplyKeepsTrust` | crates/deltaship-client/src/patcher.rs:629-789 | an update, failed or not, keeps every whole place authentic |
| `Updater.ApplyKeepsTrustIff` | crates/deltaship-client/src/patcher.rs:629-789 | it keeps them so exactly if a first install lands what was verified or bytes that are authentic anyway |
| `Updater.RollbackKeepsTrust` | crates/deltaship-client/src/patcher.rs:1286-1339 | so does a rollback |
| `UpdateRuns.RunIsAuthentic` | crates/deltaship-client/src/patcher.rs:543-1356 | over whole runs, installed bytes and completed backups are registration bytes or verified under the pinned key |
| `UpdateRuns.RegisteredRunIsAuthentic` | crates/deltaship-client/src/patcher.rs:543-1356 | so it is for every run from the state at registration |
| `UpdateRuns.Serve` | crates/deltaship-client/src/patcher.rs:543-1356 | a run of the client's own operations ends in the specified state |
| `UpdateRuns.FailedUpdateIsUndone` | crates/deltaship-client/src/patcher.rs:743-789 | after a failed execution and a completed restore, binary and sidecar are as before, and exactly when |
| `UpdateRuns.FirstInstallIsNotUndone` | crates/deltaship-client/src/patcher.rs:743-760 | a first install whose file hashes otherwise stays in place |
| `UpdateRuns.FirstInstallStaysExample` | crates/deltaship-client/src/patcher.rs:743-760 | concrete data on which bytes that no signature covers stay installed |
| `UpdateRuns.RoutesAgree` | crates/deltaship-client/src/patcher.rs:898-931 | with an injective hash, diff and full download install the same bytes |
| `UpdateRuns.PublishedDiffIsFetched` | crates/deltaship-client/src/patcher.rs:1216-1235 | the diff route delivers the published binary for every encoded segmentation, raw or compressed |
| `UpdateRuns.AppliedTables` | crates/deltaship-client/src/patcher.rs:682-741 | an update keeps the tables consistent and the key pinned, and moves the record only to the target version |
| `UpdateRuns.UpdateSettles` | crates/deltaship-client/src/patcher.rs:1102-1121 | a successful update leaves a sidecar that is good for the recorded version |
| `UpdateRuns.UpdateSucceeds` | crates/deltaship-client/src/patcher.rs:678-741 | when copies, checks and statements succeed, an update succeeds exactly if its version is new, its text acceptable and its file not empty |
| `UpdateRuns.UpdateThenRollback` | crates/deltaship-client/src/patcher.rs:1286-1356 | update then rollback succeeds and is the identity on bytes, sidecar and the binary's record |
| `UpdateRuns.RollbackSucceeds` | crates/deltaship-client/src/patcher.rs:1286-1356 | a smooth rollback succeeds exactly if the backup is accepted and its version still installed |
| `UpdateRuns.ReinstallIsNotRecorded` | crates/deltaship-client/src/patcher.rs:705-723 | an already recorded version replaces the files but never the record |
| `Backups.BackupStays` | crates/deltaship-client/src/patcher.rs:629-675 | a recorded backup stays acceptable over a step exactly if what the step copies over it, if anything, has the recorded hash and a good sidecar |
| `Backups.BackupStaysThroughout` | crates/deltaship-client/src/patcher.rs:543-1356 | over a whole run exactly if every step keeps it |
| `Backups.EveryBackupStaysGood` | crates/deltaship-client/src/patcher.rs:543-1356 | after every orderly run, when no version is signed for two files, every backup ever recorded can be rolled back to |
| `Backups.SecondUpdateParts` | crates/deltaship-client/src/patcher.rs:682-741 | updating again after update and rollback replaces the files and leaves the record |
| `Backups.BackupIsLost` | crates/deltaship-client/src/patcher.rs:629-675 | with other bytes installed than recorded, the next update makes the version's backup unacceptable |
| `Backups.ReinstallExample` | crates/deltaship-client/src/patcher.rs:682-741 | update, rollback and update on concrete data: the first succeeds, the second parts files and record |
| `UpdateRuns.CheckAndApply` | crates/deltaship-client/src/daemon.rs:417-498 | an offer is applied only if auto-update is on and it exceeds a recorded version that parses |
| `UpdateRuns.OfferIsApplied` | crates/deltaship-client/src/daemon.rs:449-498 | an offer is applied exactly if nothing is on record or it is newer than a version on record |
| `UpdateRuns.OfferRaises` | crates/deltaship-client/src/daemon.rs:449-498 | a daemon step leaves the recorded version or raises it strictly, success always raises it |
| `UpdateRuns.DaemonNeverDowngrades` | crates/deltaship-client/src/daemon.rs:449-498 | so does every daemon run |
| `ClientDb.Database.RegisterBinary` | crates/deltaship-db/src/client.rs:386-406 | inserts unless id or name is taken or the platform unknown, and keeps the tables consistent |
| `ClientDb.Database.RecordInstalledVersion` | crates/deltaship-db/src/client.rs:587-627 | inserts exactly when hashes, text, size, reference and uniqueness allow |
| `ClientDb.Database.UpdateCurrentVersion` | crates/deltaship-db/src/client.rs:497-558 | succeeds exactly if binary and version exist and no statement fails; otherwise changes no table |
| `ClientDb.Database.SetCurrent` | crates/deltaship-db/src/client.rs:535-556 | raises the flag of the named row, unless the partial unique index refuses |
| `ClientDb.Database.DeleteManagedBinary` | crates/deltaship-db/src/client.rs:674-688 | the deletion that `DeleteIs` describes, or nothing when the database fails |
| `ClientDb.Database.RecordBackup` | crates/deltaship-db/src/client.rs:844-882 | inserts exactly when hash size, text and reference allow |
| `ClientDb.RegisterIs` | crates/deltaship-db/src/client.rs:386-406 | when registration succeeds, every field of the new record, and that nothing else changes |
| `ClientDb.RecordInstalledIs` | crates/deltaship-db/src/client.rs:587-627 | the same for an installed version |
| `ClientDb.UpdateCurrentIs` | crates/deltaship-db/src/client.rs:497-558 | the same for the current version: record, flags and what stays |
| `ClientDb.DeleteIs` | crates/deltaship-db/src/client.rs:674-688 | after a deletion nothing of the binary is left and everything else is as before |
| `ClientDb.DeletedCanReturn` | crates/deltaship-db/src/client.rs:674-688 | a deleted binary can be registered again under its id and name, without versions and backups |
| `ClientDb.CreateBackupIs` | crates/deltaship-db/src/client.rs:844-882 | when a backup is recorded, every field of the row, and that nothing else changes |
| `ClientDb.NormalIsFixed` | crates/deltaship-db/src/models.rs:93-137 | a normalised text is its own normal form, displays a version other than 0.0.0, and is the trimmed original less a leading v |
| `ClientDb.NormalizeAccepts` | crates/deltaship-db/src/models.rs:93-137 | a valid version's text, with or without a leading v, is accepted exactly if it is not 0.0.0 and has at most 255 characters, and normalises to itself |
| `ClientDb.Serve` | crates/deltaship-db/src/client.rs:386-960 | every run of the operations keeps the tables consistent and ends in the specified tables |
| `ClientDb.SetAfterClear` | crates/deltaship-db/src/client.rs:505-556 | clearing and setting marks exactly the named version, which the index accepts |
| `ClientDb.UpdateCurrentKeeps` | crates/deltaship-db/src/schema.rs:308-334 | changing the current version keeps the tables consistent |
| `ClientDb.RecordInstalledKeeps` | crates/deltaship-db/src/schema.rs:308-322 | recording a version keeps the tables consistent |
| `ClientDb.DeleteKeeps` | crates/deltaship-db/src/client.rs:674-688 | the cascade keeps the tables consistent |
| `ClientDb.ReachableIsConsistent` | crates/deltaship-db/src/schema.rs:256-417 | every reachable database is consistent |
| `ClientDb.CurrentRow` | crates/deltaship-db/src/schema.rs:308-334 | at most one current row per binary, there exactly if `current_version_id` is set, and named by it |
| `Eviction.SortByAccess` | crates/deltaship-server/src/rate_limit.rs:137-142 | the sorted sample is a permutation in access order |
| `Eviction.SampledIs` | crates/deltaship-server/src/rate_limit.rs:134-141 | the sample is the first 40,000 candidates of the iteration, and the constants |
| `Eviction.OldestOfIsOldest` | crates/deltaship-server/src/rate_limit.rs:134-145 | for every iteration order, how many keys go, each once, none used later than a sampled survivor |
| `RateLimit.RateLimiter.CleanupExpired` | crates/deltaship-server/src/rate_limit.rs:104-109 | keeps exactly the entries whose window is not over |
| `RateLimit.RateLimiter.EvictWhenFull` | crates/deltaship-server/src/rate_limit.rs:119-151 | leaves room whatever the iteration order |
| `RateLimit.RateLimiter.CheckRateLimit` | crates/deltaship-server/src/rate_limit.rs:171-206 | the answer and the new table; the capacity is never exceeded |
| `RateLimit.SweepIs` | crates/deltaship-server/src/rate_limit.rs:104-109 | a sweep keeps exactly the entries whose window is not over |
| `RateLimit.TouchIs` | crates/deltaship-server/src/rate_limit.rs:182-205 | window, count, admission and last access after a request |
| `RateLimit.RequestIs` | crates/deltaship-server/src/rate_limit.rs:171-181 | what a request does to the rest of the table |
| `RateLimit.MakeRoomFits` | crates/deltaship-server/src/rate_limit.rs:119-151 | a table full of live entries loses exactly a tenth, the longest unused of its sample |
| `RateLimit.Serve` | crates/deltaship-server/src/rate_limit.rs:156-206 | over every trace, the answers of an address, and the capacity kept |
| `RateLimit.AnswersAreFixedWindow` | crates/deltaship-server/src/rate_limit.rs:171-206 | an address never evicted is answered as by a counter of its own |
| `RateLimit.SweepsInvisible` | crates/deltaship-server/src/rate_limit.rs:156-170 | sweeps and other addresses change no answer |
| `RateLimit.BurstBound` | crates/deltaship-server/src/rate_limit.rs:171-206 | in any interval of one window it gets at most 2 * max - 1 admissions, at most max if the window is a single clock tick |
| `RateLimit.BurstBoundIsTight` | crates/deltaship-server/src/rate_limit.rs:171-206 | for every quota and window a trace of the limiter reaches that bound |
| `AuthBackoff.AuthFailureLimiter.RecordFailure` | crates/deltaship-server/src/rate_limit.rs:323-381 | the answer and the new table after a failure |
| `AuthBackoff.AuthFailureLimiter.RecordSuccess` | crates/deltaship-server/src/rate_limit.rs:390-406 | decays the count, clears the penalty, drops a fully decayed entry |
| `AuthBackoff.AuthFailureLimiter.EvictWhenFull` | crates/deltaship-server/src/rate_limit.rs:266-294 | evicts only addresses that serve no penalty |
| `AuthBackoff.SuccessIs` | crates/deltaship-server/src/rate_limit.rs:390-406 | a success lowers a count above one by one, drops the entry exactly at one or less, and leaves the others |
| `AuthBackoff.FailureIs` | crates/deltaship-server/src/rate_limit.rs:339-381 | answer, count, penalty and last access after a failure |
| `AuthBackoff.PenaltyIs` | crates/deltaship-server/src/rate_limit.rs:361-365 | the penalties of 60, 120, 240, 480 and 600 seconds |
| `AuthBackoff.FailureChangesOne` | crates/deltaship-server/src/rate_limit.rs:323-337 | a failure changes its own address alone unless the table is full |
| `AuthBackoff.SweepIs` | crates/deltaship-server/src/rate_limit.rs:248-260 | a sweep keeps exactly penalties and entries of the last 600 seconds |
| `AuthBackoff.EvictionIs` | crates/deltaship-server/src/rate_limit.rs:266-294 | how many addresses a full table gives up, which, and none inside a penalty |
| `AuthBackoff.CountIsTally` | crates/deltaship-server/src/rate_limit.rs:323-406 | below the threshold the count is the tally of own failures and successes over every run that does not forget the address |
| `AuthBackoff.NextFailureBlocks` | crates/deltaship-server/src/rate_limit.rs:356-377 | the next failure then blocks exactly when the tally is at least four |
| `AuthBackoff.PenaltyFollowsLadder` | crates/deltaship-server/src/rate_limit.rs:361-365 | the wrapping product is min(60 * 2^k, 600) exactly if k < 62, and zero from then on |
| `AuthBackoff.PenaltyNeverShrinks` | crates/deltaship-server/src/rate_limit.rs:361-365 | exactly when a longer history has no shorter penalty |
| `AuthBackoff.PatientIsLetGo` | crates/deltaship-server/src/rate_limit.rs:356-377 | an address failing every ten minutes, with the table swept every 30 seconds, is not blocked from its 67th failure on |
| `AuthBackoff.FailureStartsPenalty` | crates/deltaship-server/src/rate_limit.rs:356-377 | a failure past the threshold starts a penalty of the documented length exactly if the exponent is below 62 |
| `AuthBackoff.PenaltyStands` | crates/deltaship-server/src/rate_limit.rs:266-405 | before its end a penalty survives every event except the address's own success |
| `AuthBackoff.PenaltyIsServed` | crates/deltaship-server/src/rate_limit.rs:248-420 | so it does over every run without that success |
| `AuthBackoff.OffenderIsRemembered` | crates/deltaship-server/src/rate_limit.rs:248-321 | for 600 seconds after its last access, sweeps and other addresses leave an entry unchanged over every run that does not evict it |
| `AuthBackoff.TableOverflows` | crates/deltaship-server/src/rate_limit.rs:266-294 | the capacity is exceeded exactly when the table is full of active penalties and a new address fails |
| `AuthBackoff.TableIsUnbounded` | crates/deltaship-server/src/rate_limit.rs:323-381 | for every n some run fills the table with n penalties |
| `Download.Downloader.StreamToFile` | crates/deltaship-client/src/downloader.rs:558-583 | the file gains exactly the streamed bytes, or a prefix of them on failure, and the count is theirs |
| `Download.Downloader.Attempt` | crates/deltaship-client/src/downloader.rs:390-552 | the file and outcome of one attempt for every HEAD answer, reply and failure |
| `Download.Downloader.DownloadFile` | crates/deltaship-client/src/downloader.rs:249-345 | succeeds exactly if one of three attempts does and none before it gave up; otherwise the partial file is removed |
| `Download.RetriedIs` | crates/deltaship-client/src/downloader.rs:264-303 | the result is that of the attempt at which the retrying ends |
| `Download.DownloadSucceedsIff` | crates/deltaship-client/src/downloader.rs:264-303 | a download succeeds exactly if one of three attempts does and none before it gave up, with that attempt's file and count |
| `Download.ThirdTimeLucky` | crates/deltaship-client/src/downloader.rs:264-303 | two failures that are not final and then a full reply end in the content |
| `Download.DistrustIs` | crates/deltaship-client/src/downloader.rs:356-382 | which partial files are thrown away |
| `Download.AttemptSucceedsIff` | crates/deltaship-client/src/downloader.rs:390-552 | exactly when an attempt succeeds |
| `Download.FailureCodeIs` | crates/deltaship-client/src/downloader.rs:216-240 | which code a failure carries |
| `Download.AttemptKeepsPrefix` | crates/deltaship-client/src/downloader.rs:390-552 | a reply that starts where the file ends keeps the file a prefix of the content |
| `Download.DoneIsComplete` | crates/deltaship-client/src/downloader.rs:451-552 | from a prefix, success means the whole content exactly if a partial reply was the whole range |
| `Download.ShortRangeIsDone` | crates/deltaship-client/src/downloader.rs:494-552 | a concrete partial reply for which a short file is reported complete |
| `Download.ForeignPrefixIsKept` | crates/deltaship-client/src/downloader.rs:356-382 | a concrete foreign partial file that is completed into a wrong one |
| `Download.ResumeTrustsSize` | crates/deltaship-client/src/downloader.rs:347-382 | from any file, success means the content exactly if the reply was full or the file a prefix |
| `Download.DownloadIsExact` | crates/deltaship-client/src/downloader.rs:249-583 | over all attempts, success leaves the content, failure nothing, or a prefix if the cleanup fails |
| `Download.DownloadRightIff` | crates/deltaship-client/src/downloader.rs:249-583 | over all attempts and from any file, success leaves the content exactly if the last reply was full, or was all of the rest with every partial reply since the last full one or removal in order |
| `KeyFile.ParseMetadata` | crates/deltaship-crypto/src/keys.rs:428-491 | the line loop computes the fold of the fields and their assembly, with each error |
| `KeyFile.TakeIs` | crates/deltaship-crypto/src/keys.rs:435-474 | what each kind of line does, with its error |
| `KeyFile.MissingFieldIs` | crates/deltaship-crypto/src/keys.rs:477-491 | which error a missing field gives, and the default level |
| `KeyFile.OldFilesAreStandard` | crates/deltaship-crypto/src/keys.rs:481-482 | a file without a security level is read as standard |
| `KeyFile.ParseU8Is` | crates/deltaship-crypto/src/keys.rs:441-449 | which version numbers are accepted |
| `KeyFile.PrintIs` | crates/deltaship-crypto/src/keys.rs:384-393 | the printed text, written out |
| `KeyFile.HexIs` | crates/deltaship-crypto/src/keys.rs:254-258 | two lower-case digits for each byte |
| `KeyFile.ChunksAre` | crates/deltaship-crypto/src/keys.rs:259-263 | lines of 64 characters |
| `KeyFile.StripFrameIs` | crates/deltaship-crypto/src/keys.rs:516-521 | a frame is taken off exactly if the text is header, data and footer |
| `KeyFile.ContainsIs` | crates/deltaship-crypto/src/keys.rs:542 | what counts as the modern format |
| `KeyFile.DecodeHexIs` | crates/deltaship-crypto/src/keys.rs:279-304 | which hex error is reported |
| `KeyFile.LoadIs` | crates/deltaship-crypto/src/keys.rs:512-562 | each way in which loading refuses a file |
| `KeyFile.DecodeOfFolded` | crates/deltaship-crypto/src/keys.rs:254-304 | decoding folded hex gives the bytes back, for every length |
| `KeyFile.HexLineIsData` | crates/deltaship-crypto/src/keys.rs:468-473 | a folded hex line is never taken for a field or a marker |
| `KeyFile.SealedRoundTrip` | crates/deltaship-crypto/src/keys.rs:384-491 | parsing a printed encrypted key returns its version, level, salt, nonce and ciphertext, of any length |
| `KeyFile.LoadPrinted` | crates/deltaship-crypto/src/keys.rs:512-607 | loading a printed key returns it exactly if its version and lengths are the current ones |

## Left out

- The `bsdiff::diff` generator, zstd, BLAKE3, Ed25519, Argon2 and ChaCha20-Poly1305: foreign code; the patch encoder is part of the specification.
- HTTP clients, routing, command line, progress bars, logging and audit: plumbing.
- Task cancellation and process crashes; `delete_version` is one atomic step of the sequential catalogue, because it takes only the file lock.
- The advisory file locks of storage.rs: they add exclusion against other processes, and the interleaving model has one process.
- The deprecated `update_catalog`, which the source documents as racy.
- The number of entries in the mutex table: its capacity is soft, and the model proves safety of the eviction, not a size.
- Release notes, the forced flag and rollout settings after publications in different orders: they depend on the order.
- ServerRuns.Serializable: a read that fails counts as a blind commit of a creating request, as in the code; the theorem replays it as such.
- Updater.Client.ApplyUpdate: the file system is a map of one binary's places; the update history table, download scratch files, symlink, ownership, disk-space and memory checks appear only as failures.
- UpdateRuns.CheckAndApply: one managed binary per step; the loop over binaries and the circuit breaker's sleep multiplier are easy and omitted.
- The `rollback` command's own copy of the rollback steps (commands/rollback.rs): the model follows `rollback_to_backup`.
- Download.DownloadIsExact: a body cut short without an error is not among the server's replies, since the HTTP library reports it.
- Platform names and expiry timestamps are checked by a parameter in ClientDb; timestamps and the update history columns are not stored.
- `client_ip`, the middleware, and lock poisoning in rate_limit.rs; clock overflow of `Instant`.
- Verifying-key files: the same frame and hex as a plain signing key.
