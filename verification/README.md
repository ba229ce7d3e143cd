# Firelink: a model of its protocols and stores

This project models the parts of Firelink in which state, ordering and failure meet, and
proves what those parts promise.

- **Media coordinator** (`MediaActor`, `MediaActorLaws`, `MediaHistory`, `MediaRegistration`,
  `MediaProtocol`, `MediaDelivery`).
  The registration record behind its lock, the actor behind its queue, and the clients of
  both. An actor state is a record of the tables `run_coordinator` keeps, with the channels
  signalled and the answers sent so far; `MediaProtocol` interleaves lock sections, sends,
  deliveries, dropped callers and a stopping coordinator in any order.
- **Persistence** (`Documents`, `Downloads`, `Database`, `BackupRecovery`, `RecoveryLaws`,
  `RecoveryQueues`, `RecoveryEvidence`, `Ownership`, `OwnershipLaws`, `RecoveryClaims`,
  `StoreRuns`, `RemovalJobs`, `CheckpointLaws`, `JournalLaws`, `PortableLaws`, `RowLaws`). The
  SQLite tables are fields of a `Connection`; a transaction works on copies and commits at its end.
  A fault oracle may fail any statement. A JSON document is the object of the fields the
  code reads, another JSON value, or text that does not parse. `StoreRuns` puts all steps
  that write the tables, and restarts, into one machine.
- **Credential sagas** (`Credentials`, `CredentialLaws`). Settings row and credential store;
  a failing call into the credential store may still have had its effect.
- **Payload promotion** (`Promotion`, `PromotionLaws`). A directory as a map from names to
  payloads that are whole or damaged; every file operation may throw, or be the last before
  a crash, and a recursive delete may stop halfway. Another publisher may take the
  destination while it is vacant between the two renames.
- **Resumable download** (`ContentRange`, `ArchiveDownload`). Server, disk, idle timeout and
  abort are arbitrary; sections 14.4, 15.3.7 and 15.5.17 of RFC 9110 name the header and the
  status codes.
- **Bencode** (`Utf8`, `Bencode`, `BencodeLaws`, `BencodeGrammar`), the encoding of the
  "bencoding" section of BEP 3.
- **File names** (`Filenames`, `FilenameLaws`, `DeviceLaws`) and **lock graphs** (`LockDiff`).

`Base`, `Characters`, `Decimal` and `KeyOrder` hold the shared vocabulary.

Each stateful component has a class whose methods are proved equal to, or within, a
specification on values; the laws are lemmas about that specification over arbitrary runs.

Where the code and its comments part, the model follows the code:

- The comment on `cancel_active_media_for_shutdown` (src-tauri/src/download.rs:91-92) speaks of
  every accepted runner. One that was paused or replaced before is not awaited, as
  `MediaHistory.PausedRunnerNotAwaited` shows; `MediaHistory.ShutdownPromiseExactly` says when
  the comment holds.
- A restored backup document without a status is completed in the index only
  (src-tauri/src/db.rs:592-595), and one whose status is missing or empty blocks the journal
  recovery; `JournalLaws.RestoredAgreesExactly`, `RestoredStuckExactly` and
  `JournalAppliesAfterRecovery` give the exact conditions.
- `removeOrphanedPreviousPayloads` does not look whether the destination exists;
  `PromotionLaws.CleanupSafeExactly` gives the exact condition under which it is safe.
- A shutdown that is retried while one is waiting takes its place, and the first caller is
  never answered; `MediaActorLaws.ShutdownWaits` gives the exact condition.
- A malformed stored epoch is fenced as one (src-tauri/src/db.rs:2253) and invalidated to one
  (src-tauri/src/db.rs:1741-1747), so it fences nothing off; see
  `CheckpointLaws.MalformedEpochIsNotFenced`.
- Backup recovery and legacy import insert ownership rows without looking for a collision;
  `RecoveryClaims.RecoveryKeepsExclusiveExactly` and `ImportKeepsExclusiveExactly` say when the
  claims stay disjoint.
- A canonical name can be a device name in two ways: with two extensions, the hyphen comes too
  late, and with an extension of 252 bytes or more the bare cut can leave a device name and
  spaces; `FilenameLaws.CanonicalReservedExactly` gives both.
- A NUL character in a package name or source could merge two groups of a lock diff; see
  `LockDiff.KeyUniqueExactly`.

## Model

| member | source | states |
|---|---|---|
| MediaActor.Coordinator.HandleRegister | src-tauri/src/download.rs:287-311 | A stale registration is signalled and dropped; otherwise it replaces and signals the entry of its id, and a tombstone at least as new cancels it at once |
| MediaActor.Coordinator.HandlePause | src-tauri/src/download.rs:312-323 | A pause of the running generation removes and signals it; any other leaves a tombstone at the larger generation; which tombstones there are, by the history alone, is MediaHistory.TombstonesExactly |
| MediaActor.Coordinator.HandlePauseWithAck | src-tauri/src/download.rs:324-340 | The same, with the sender kept until the finish, or answered `false` at once when no runner matched and a tombstone is left |
| MediaActor.Coordinator.HandleFinished | src-tauri/src/download.rs:341-375 | A finish removes its own entry, answers its pending pause with `true`, retires older tombstones and settles a waiting shutdown |
| MediaActor.Coordinator.HandleCancelAll | src-tauri/src/download.rs:376-395 | A shutdown signals every runner and waits for them, or is answered at once when there is none |
| MediaActor.Coordinator.Serve | src-tauri/src/download.rs:242-406 | The receive loop computes the run of the commands in order, and at its end signals every runner it still knows of |
| MediaActorLaws.RegistrationAccounted | src-tauri/src/download.rs:287-311 | Every processed registration has been signalled, or its generation has finished, or it is the one entry of its id |
| MediaActorLaws.AtMostOneLiveRunner | src-tauri/src/download.rs:287-357 | Two registrations of one id that are neither signalled nor finished are the same channel and generation, after any commands |
| MediaActorLaws.PauseAndFinishAreExact | src-tauri/src/download.rs:312-347 | One step of the laws of `MediaHistory`: a pause or finish of one generation touches no other; a matching one removes the entry, and a matching pause signals it |
| MediaActorLaws.GenerationNeverDecreases | src-tauri/src/download.rs:287-303 | While an id keeps an entry, through any commands, the generation of that entry never falls |
| MediaActorLaws.TombstoneStays | src-tauri/src/download.rs:295-357 | Over any commands, stale registrations included, a tombstone is present throughout if and only if none of them retires it where it is processed, and it never falls |
| MediaActorLaws.TombstoneCancelsLateRegistration | src-tauri/src/download.rs:295-310 | However many commands lie between, a registration of a generation up to an unretired tombstone is signalled, and stays so whatever follows |
| MediaActorLaws.EndSignalsEveryRunner | src-tauri/src/download.rs:403-405 | When the coordinator has ended, every registration it ever processed has been signalled, or its generation has finished |
| MediaActorLaws.AnsweredAtMostOnce | src-tauri/src/download.rs:324-352 | No pause sender is answered twice, in any history |
| MediaActorLaws.PauseAckLife | src-tauri/src/download.rs:324-352 | The fate of every acknowledged pause in every history: answered `false` without a runner; else held until its finish, which answers `true`; or dropped unanswered when the generation is registered and paused again first |
| MediaActorLaws.PauseAckExact | src-tauri/src/download.rs:324-352 | Each of the two answers was sent, and the sender is held, exactly in its case |
| MediaActorLaws.PauseAckRegisteredOnce | src-tauri/src/download.rs:324-352 | If no (id, generation) is registered twice, the answer `true` was sent exactly when the matched generation has finished |
| MediaActorLaws.PauseOvertaken | src-tauri/src/download.rs:324-340 | A history in which a second pause takes the place of the first, whose sender is never answered |
| MediaActorLaws.ShutdownStarts | src-tauri/src/download.rs:376-395 | Handling a shutdown signals every entry and waits for exactly the keys of the entries |
| MediaActorLaws.ShutdownAnswer | src-tauri/src/download.rs:358-395 | From any state with a waiting shutdown, over any commands: it is answered, once, exactly when the finishes cover its keys before another shutdown that finds runners, with the sorted interrupted finishes of the shortest covering prefix; it waits exactly while neither has happened |
| MediaActorLaws.ShutdownWaits | src-tauri/src/download.rs:358-395 | The same, exactly, for every shutdown of every history in which no sender is used twice |
| MediaActorLaws.ShutdownAnsweredSoundly | src-tauri/src/download.rs:358-395 | In every history, with any number of shutdowns: an answer means that every runner the command found has finished, and lists exactly the interrupted finishes up to the last of them |
| MediaActorLaws.FirstCoverLeast | src-tauri/src/download.rs:358-375 | The covering prefix that decides a shutdown answer is the shortest one |
| MediaActorLaws.ShutdownDisplaced | src-tauri/src/download.rs:376-395 | A history in which a retried shutdown takes the place of the first, whose sender is never answered |
| MediaHistory.EntriesExactly | src-tauri/src/download.rs:287-347 | After any commands an entry stands in the table if and only if it was registered, was not turned away, and no later pause or finish of its generation or registration of its id that is not older ended it |
| MediaHistory.StaleExactly | src-tauri/src/download.rs:288-294 | A registration is turned away if and only if such a runner of a newer generation of the id is running |
| MediaHistory.TombstonesExactly | src-tauri/src/download.rs:295-357 | After any commands the tombstone of an id is the largest generation of its pauses that found no running entry and that no later accepted registration or finish of at least that generation retired, and there is none if there is no such pause |
| MediaHistory.PauseBeforeRegister | src-tauri/src/download.rs:295-321 | A pause that comes before its registration cancels it: the runner is signalled as soon as it registers |
| MediaHistory.SignalledExactly | src-tauri/src/download.rs:287-395 | In every history a runner has been told to stop if and only if it was turned away, or a pause came before it that found no runner and was not retired, or a pause, a replacement or a shutdown came while it ran; all of this is read off the commands |
| MediaHistory.AwaitedExactly | src-tauri/src/download.rs:376-395 | A shutdown waits for exactly the runners accepted before it and not ended |
| MediaHistory.ShutdownFateByHistory | src-tauri/src/download.rs:358-395 | The exact fate of every shutdown, with the awaited runners and the rival shutdowns read off the history |
| MediaHistory.RunnerAwaitedExactly | src-tauri/src/download.rs:312-395 | An accepted, unfinished runner is found by a shutdown if and only if it was neither paused nor replaced before |
| MediaHistory.ShutdownPromiseExactly | src-tauri/src/download.rs:91-118 | An answered shutdown means that every accepted runner has finished if and only if those have that were paused or replaced before it |
| MediaHistory.PausedRunnerNotAwaited | src-tauri/src/download.rs:312-395 | A history in which a shutdown is answered at once while a paused runner has not finished |
| MediaRegistration.Registration.RegisterMedia | src-tauri/src/download.rs:64-89 | The lock section of a registration: rejected and remembered while closed, active once its command was sent |
| MediaRegistration.Registration.CancelActiveForShutdown | src-tauri/src/download.rs:93-111 | The lock section of a shutdown: closed and every active key marked, reopened (with the marks kept) when the command cannot be sent |
| MediaRegistration.Registration.FinishMedia | src-tauri/src/download.rs:165-184 | The lock section of a finish: an interrupted one marks its key while closed, any other retires the mark |
| MediaRegistration.Registration.ReopenRegistration | src-tauri/src/download.rs:121-132 | A reopen returns both recovery sets, sorted and without duplicates |
| KeyOrder.IdLeExactly | src-tauri/src/download.rs:128-130 | The order of the sorted keys: the first differing character of the ids decides, and a shorter id comes first |
| MediaRegistration.ClosedIsClosed | src-tauri/src/download.rs:69-107 | The flag agrees with the history of closes, failed closes and reopens |
| MediaRegistration.ActiveIsRunning | src-tauri/src/download.rs:76-87 | The active set is exactly the registrations delivered and not finished since |
| MediaRegistration.RecoverySetsExact | src-tauri/src/download.rs:69-100 | Over any history the two sets hold exactly the keys rejected, and the keys marked and not retired, since the last reopen, whether or not a shutdown caller stayed |
| MediaRegistration.ReopenReturnsOwedKeys | src-tauri/src/download.rs:121-132 | A reopen returns exactly the keys owed, each once, and a second one returns nothing |
| MediaProtocol.InvariantHolds | src-tauri/src/download.rs:64-193 | In every run of clients, lock sections, queue and coordinator: the record and the coordinator agree with their histories, and a closed period has no registration behind its shutdown command |
| MediaProtocol.ShutdownBarrier | src-tauri/src/download.rs:64-119 | After the coordinator handled the shutdown of a closed period, no registration is processed until a reopen, and every entry stays signalled |
| MediaProtocol.ShutdownsOnceHolds | src-tauri/src/download.rs:93-103 | No two shutdown commands of a run share a sender |
| MediaProtocol.SingleRunnerInEveryRun | src-tauri/src/download.rs:287-357 | In every reachable state at most one registration of an id is neither told to stop nor finished |
| MediaProtocol.PauseAnswersInEveryRun | src-tauri/src/download.rs:324-352 | The exact pause answers, in every run of the whole system |
| MediaProtocol.PauseConfirmedInEveryRun | src-tauri/src/download.rs:324-352 | If moreover no (id, generation) is registered twice, `true` is answered exactly for a matched generation that has finished |
| MediaProtocol.ShutdownAnswersInEveryRun | src-tauri/src/download.rs:358-395 | The soundness of shutdown answers, in every run of the whole system |
| MediaProtocol.ShutdownFateInEveryRun | src-tauri/src/download.rs:358-395 | Every shutdown handled in any run of the whole system is answered, waiting or displaced, exactly as in the histories above |
| MediaProtocol.ShutdownDisplacedRun | src-tauri/src/download.rs:93-118 | A run of the whole system in which a retried shutdown leaves the first caller without an answer |
| MediaProtocol.ShutdownPromiseInEveryRun | src-tauri/src/download.rs:91-118 | In every run of the whole system an answered shutdown leaves no accepted runner unfinished but those paused or replaced before it, with the exact condition above |
| MediaProtocol.RunnerAwaitedInEveryRun | src-tauri/src/download.rs:312-395 | Which accepted runners a shutdown finds, in every run of the whole system |
| MediaProtocol.SignalledInEveryRun | src-tauri/src/download.rs:287-395 | Who was told to stop, exactly, in every run while the coordinator is up |
| MediaProtocol.PausedRunnerRun | src-tauri/src/download.rs:91-118 | A run of the whole system in which the shutdown is answered while a paused runner is still active in the record |
| MediaProtocol.RecoveryInEveryRun | src-tauri/src/download.rs:121-132 | A reopen in any reachable state returns exactly the keys owed by the history of lock sections |
| MediaDelivery.SendsExactly | src-tauri/src/download.rs:57-193 | Which command each client step puts into the channel, behind all earlier ones, and which steps send nothing |
| MediaDelivery.EntersExactly | src-tauri/src/download.rs:64-193 | Which lock section each client step runs on the record, and with which outcome of its send |
| MediaDelivery.OwedFinishes | src-tauri/src/download.rs:165-193 | A finish is owed from its lock section until it is sent or its task is dropped |
| MediaDelivery.StopExactly | src-tauri/src/download.rs:396-406 | A stopping coordinator drops its queue and answers nobody; at the end of its drained loop it signals every runner |
| MediaDelivery.DeliveredInOrder | src-tauri/src/download.rs:242-286 | While the coordinator runs, the commands handled and those waiting are all the commands sent, in the order of sending |
| MediaDelivery.EveryCommandHandled | src-tauri/src/download.rs:242-286 | A running coordinator that does nothing else comes to handle every command that was sent |
| Documents.ClearProgressMeaning | src-tauri/src/db.rs:1736-1754 | Clearing a checkpoint stamps the epoch, removes every progress field, removes the size exactly when the total was an estimate, and touches no other field |
| Downloads.ReplaceWrites | src-tauri/src/db.rs:2262-2293 | After a snapshot save a row of a removal job is as it was, and every other row is the fenced document of the snapshot with indexed id, status and queue equal to it |
| Downloads.ReplaceKeeps | src-tauri/src/db.rs:2262-2293 | No row of a removal job is dropped, and every document of the snapshot without a job is stored |
| Downloads.ReplacedUnique | src-tauri/src/db.rs:2284-2291 | A save leaves no id twice |
| RowLaws.SaveExactly | src-tauri/src/db.rs:2262-2293 | After a save an id without a removal job has the row its document in the snapshot leaves: its id, status and queue as columns, and the document itself unless it is media with another epoch than the stored one, when the epoch is stamped and the progress dropped; without a document it has no row |
| RowLaws.AcceptableExactly | src-tauri/src/db.rs:2265-2292 | A snapshot is refused if and only if a document outside the removal jobs has no id or no status, or two of them share an id |
| RowLaws.StoredFenceExactly | src-tauri/src/db.rs:2228-2261 | The epoch a snapshot is compared with, from the stored documents: zero without a media row or without an epoch, one for a malformed epoch |
| RowLaws.SaveOrder | src-tauri/src/db.rs:2265-2292 | The saved rows stand in the order of the snapshot |
| RowLaws.JobRowsFirst | src-tauri/src/db.rs:2262-2264 | The rows of removal jobs stand before them, in the order they had |
| RowLaws.MutationExactly | src-tauri/src/db.rs:1647-1724 | A mutation succeeds if and only if every row is readable, the id has a row, and the change is given, keeps the id, and leaves the stored object as it was or with an id and a status; then the row holds that object and its columns, or is untouched |
| RowLaws.CompletableExactly | src-tauri/src/db.rs:1563-1590 | A journaled row can be completed if and only if its document names its id and repeats its status, which is not empty |
| RowLaws.ImportExactly | src-tauri/src/db.rs:880-927 | A legacy import fills only empty tables, never replaces an owner, and does nothing if one of its lists is refused |
| PortableLaws.SavedDocument | src-tauri/src/db.rs:2339-2353 | Whatever a save writes is a document of the snapshot without live metadata, in portable storage passed through the sanitiser, and fenced |
| PortableLaws.MutatedDocument | src-tauri/src/db.rs:1697-1700 | Whatever a mutation writes is its result without live metadata, in portable storage passed through the sanitiser |
| PortableLaws.RestoredDocument | src-tauri/src/db.rs:557-564 | Whatever a portable recovery restores is a document of its candidate, passed through the sanitiser |
| PortableLaws.SecretsStayOut | src-tauri/src/db.rs:2339-2353 | Over every run of a portable store no row ever holds a field that the sanitiser removes, if none did at the start |
| PortableLaws.StartClearsSecrets | src-tauri/src/db.rs:2182-2225 | The pass at the start of a portable process clears such fields from every row, unless one does not decode |
| PortableLaws.SavedBare | src-tauri/src/db.rs:1782-1791 | No row written by a save holds live metadata, portable or not |
| PortableLaws.MutatedBare | src-tauri/src/db.rs:1697 | Nor does a row written by a mutation |
| Database.Connection.ReplaceDownloadsTx | src-tauri/src/db.rs:2227-2294 | The loops of a snapshot save compute the replaced table, and fail, apart from storage faults, exactly for an unacceptable snapshot |
| Database.Connection.ReplaceDownloads | src-tauri/src/db.rs:1607-1620 | A snapshot save stores the replaced table or, on any error, nothing; what that holds is RowLaws.SaveExactly, and that it is sanitised PortableLaws.SavedDocument |
| Database.Connection.ReplaceDownloadsAndQueues | src-tauri/src/db.rs:1622-1638 | Downloads and queues change together or not at all |
| Database.Connection.MutateDownload | src-tauri/src/db.rs:1647-1724 | The checked mutation of one row; any error, a malformed unrelated row included, changes nothing; when it succeeds and what it stores is RowLaws.MutationExactly, and that it is sanitised PortableLaws.MutatedDocument |
| Database.Connection.InvalidateMediaProgress | src-tauri/src/db.rs:1729-1756 | The epoch invalidation is such a mutation; it returns the epoch it stored, and none if and only if the row is not media or is completed |
| Database.Connection.RecordShutdownTerminal | src-tauri/src/db.rs:1475-1516 | Recording a completion keeps the larger generation, or changes nothing |
| Database.Connection.ClearShutdownTerminal | src-tauri/src/db.rs:1518-1531 | Clearing removes one entry |
| Database.Connection.RecoverShutdownJournal | src-tauri/src/db.rs:1533-1605 | The recovery loop completes all journaled rows and empties the journal, or changes neither table |
| BackupRecovery.Recover | src-tauri/src/db.rs:344-735 | The candidate loop, one transaction each, computes the recovered tables from what the candidates deliver: owners, paths and queues whose insert fails are lost without an error; a fault leaves the state after some number of candidates |
| BackupRecovery.RecoverOrphans | src-tauri/src/db.rs:489-735 | The passes in orphan mode over delivered candidates, with the skipped and complete markers |
| BackupRecovery.RecoverWithoutEvidence | src-tauri/src/db.rs:500-735 | Without evidence or marker, the one full restore from the first usable delivered candidate |
| RecoveryLaws.WellFormedRowsKept | src-tauri/src/db.rs:585-604 | A row whose document names its own id is never changed by a recovery |
| RecoveryLaws.TombstonesStayGone | src-tauri/src/db.rs:585-587 | A recovery leaves every id with a completed removal as it was |
| RecoveryLaws.OrphansRestoredExactly | src-tauri/src/db.rs:446-487 | In orphan mode exactly the orphan ids some usable candidate holds are restored, each from the newest such candidate, and every other id keeps what it had |
| RecoveryLaws.RestoredExactly | src-tauri/src/db.rs:570-612 | With or without evidence, a recovery stores for each id exactly the document chosen for it, the last one of the newest usable holder, or the first one of the full restore, and leaves every other row |
| RecoveryLaws.MarkerForbidsFullRestore | src-tauri/src/db.rs:402-450 | Once a marker exists, a row can only appear for an id with an ownership row or an unfinished removal job |
| RecoveryLaws.RepairPassMeaning | src-tauri/src/db.rs:500-710 | The loop over candidates restores each wanted id from the first candidate that holds it and leaves the rest wanted |
| RecoveryLaws.UnscopedLookup | src-tauri/src/db.rs:585-612 | The unscoped restore keeps existing rows and adds the backup ids that are not excluded |
| RecoveryLaws.RecoveryIdempotent | src-tauri/src/db.rs:344-735 | Recovering again from the same downloads changes nothing, even where entries arrive that were lost the first time |
| RecoveryLaws.LossesDecideNoDownload | src-tauri/src/db.rs:617-700 | Whichever of the inserts whose failure is ignored do fail, the same downloads are restored and the same marker is set |
| RecoveryLaws.InterruptedRecoveryCompletes | src-tauri/src/db.rs:500-735 | A recovery cut short after any number of candidates is completed by the next start: exactly while orphans were left; behind the last repair exactly but for the text of the marker, which is given for both |
| RecoveryQueues.RecoveredQueues | src-tauri/src/db.rs:665-680 | Which queue rows a recovery leaves, queue by queue: the old row; where there is none, that of the first candidate that restored an orphan whose document names the queue and that has it, or in the full restore that of the candidate restored; nothing else is added |
| RecoveryQueues.InterruptedQueues | src-tauri/src/db.rs:665-680 | The same for a recovery cut short, with the candidates before the cut |
| RecoveryQueues.OrphanQueueReturns | src-tauri/src/db.rs:609-680 | An owned download without a row comes back with its queue |
| RecoveryEvidence.OrphanExactly | src-tauri/src/db.rs:372-487 | Which ids are repaired, from the stored texts: a row, an owner or a job speaks for the id, no row of it carries its id, and no finished or unreadable removal covers it |
| RecoveryEvidence.UsefulExactly | src-tauri/src/db.rs:518-567 | Which candidates are read: those with a record whose id is a non-empty string, in portable storage only if every text in them parses |
| RecoveryEvidence.HoldsExactly | src-tauri/src/db.rs:557-590 | A candidate can repair an id if and only if it is read and has a record of that id |
| RecoveryEvidence.UselessSkipped | src-tauri/src/db.rs:518-567 | Any other candidate might as well not be there |
| RecoveryEvidence.UnknownIdReturnsExactly | src-tauri/src/db.rs:446-450 | An id the tables do not know comes back if and only if the database shows no sign of use, the first candidate that is read has it, and no finished or unreadable removal covers it |
| RecoveryEvidence.MarkerIdle | src-tauri/src/db.rs:489-499 | With nothing to repair a used database without a marker is marked as skipped |
| RecoveryEvidence.MarkerRepair | src-tauri/src/db.rs:716-735 | A repair is marked complete if and only if candidates that are read hold all the ids to repair |
| RecoveryEvidence.MarkerFull | src-tauri/src/db.rs:684-692 | A database without evidence is marked complete if and only if some candidate was read |
| RecoveryEvidence.RestoredColumns | src-tauri/src/db.rs:592-605 | A restored row holds the document itself under its id, with its status and its queue; without a status text it counts as completed |
| RecoveryEvidence.DeliveredExactly | src-tauri/src/db.rs:617-680 | What the ignored failures may lose of a candidate: single owner, path and queue entries, and nothing else |
| Ownership.SetOwnershipPaths | src-tauri/src/db.rs:2431-2448 | A claim succeeds, apart from storage faults, exactly when every other owner decodes and shares no path, and otherwise changes nothing |
| Ownership.CheckClaim | src-tauri/src/db.rs:2450-2515 | The scan over the other owners decides exactly that |
| Ownership.SetOwnershipAndRemovalPaths | src-tauri/src/db.rs:2534-2569 | The same with a removal reservation, all or nothing |
| Ownership.RemoveOwnership | src-tauri/src/db.rs:2651-2662 | A release deletes reservation, owned paths and ownership in this order, and may stop between them |
| Ownership.RemoveTorrentRemovalPaths | src-tauri/src/db.rs:2664-2669 | Clearing deletes one reservation |
| Ownership.ReconcileRemovalPaths | src-tauri/src/db.rs:2578-2642 | After a restart exactly the reclaimable reservations are deleted, or some of them when a delete fails |
| Ownership.OwnerForPath | src-tauri/src/download_ownership.rs:383-434 | The lookup returns the one id whose records name the path, nothing if none does, and an error for several owners or undecodable lists |
| OwnershipLaws.ExclusiveInEveryRun | src-tauri/src/db.rs:2431-2669 | Every sequence of ownership operations, failing ones included, keeps the claims of different ids disjoint and reservations with owners |
| OwnershipLaws.MalformedListBlocksClaims | src-tauri/src/db.rs:2470-2500 | One undecodable list refuses the claims of every other id over any run that does not touch that list: their entries only go away |
| OwnershipLaws.ClaimedExactly | src-tauri/src/db.rs:2450-2515 | A claim takes effect, with all its paths, if and only if no other owner has an unreadable list or claims one of them, owned or reserved; otherwise nothing changes |
| OwnershipLaws.ClaimHolds | src-tauri/src/db.rs:2431-2669 | A claimed path stays claimed over every run that does not touch its owner, and no claim of another id to it takes effect |
| OwnershipLaws.ReleaseEnds | src-tauri/src/db.rs:2651-2662 | A finished release leaves the id no claim and every other id its own |
| OwnershipLaws.ReclaimedExactly | src-tauri/src/db.rs:2578-2642 | A reservation is given up if and only if it is readable and not empty, all its paths are plain and gone, and its download has a row that failed or completed |
| RecoveryClaims.RecoveredEntries | src-tauri/src/db.rs:617-664 | After a recovery each id has its own entries, and where it had none those of the candidate it was restored from |
| RecoveryClaims.RecoveryKeepsExclusiveExactly | src-tauri/src/db.rs:617-664 | A whole recovery keeps claims disjoint if and only if what the backups add to restored ids overlaps no other claim, old or added, and reserves nothing without an owner, a condition on the tables and the backups before the call |
| RecoveryClaims.InterruptionKeepsExclusiveExactly | src-tauri/src/db.rs:617-664 | The same for a recovery cut short after any number of candidates |
| RecoveryClaims.ImportKeepsExclusiveExactly | src-tauri/src/db.rs:915-922 | The same for the owners a legacy import adds |
| RecoveryClaims.RecoveryCanShareAPath | src-tauri/src/db.rs:617-664 | Tables with disjoint claims and a backup after whose recovery two ids own one path |
| RecoveryClaims.ImportCanShareAPath | src-tauri/src/db.rs:915-922 | The same for an import |
| OwnershipLaws.NamesExactly | src-tauri/src/download_ownership.rs:383-434 | The records the lookup goes by: the primary path, the owned and the reserved paths of an id, and its rows of old queue files |
| OwnershipLaws.NamesAreClaims | src-tauri/src/download_ownership.rs:383-434 | Without legacy rows the records that name a path are those of the ids claiming it |
| OwnershipLaws.LookupAfterAnyRun | src-tauri/src/download_ownership.rs:383-434 | After any run of ownership operations the lookup returns an id exactly when it claims the path, and never finds several owners |
| StoreRuns.RunKeepsUnique | src-tauri/src/db.rs:1607-1724 | Every run of persistence steps keeps ids unique |
| StoreRuns.CompletedRemovalIsGone | src-tauri/src/removal_jobs.rs:205-224 | A completed removal leaves a tombstone and no row |
| StoreRuns.TombstoneStays | src-tauri/src/removal_jobs.rs:131-155 | No step withdraws a tombstone |
| StoreRuns.NoResurrection | src-tauri/src/db.rs:2262-2283 | Once a removal is complete, no run of saves, mutations, imports, backup and journal recoveries brings the row back |
| StoreRuns.SavesFreezeJobRows | src-tauri/src/db.rs:2262-2283 | While a removal job exists, no number of snapshot saves changes its row |
| RemovalJobs.JobStep | src-tauri/src/removal_jobs.rs:131-240 | The life of a removal job over all steps: submitted for a row, run, run again after a restart, finished or failed, retried; no other step touches it |
| RemovalJobs.RemovalTakesOnly | src-tauri/src/removal_jobs.rs:205-224 | A finished removal takes the row, the owner, the paths and the reservation of its id, and nothing of any other id |
| RemovalJobs.OtherMovesKeepTables | src-tauri/src/removal_jobs.rs:131-204 | The other moves of a job write the job and nothing else |
| CheckpointLaws.EpochStep | src-tauri/src/db.rs:2306-2322 | In one step the epoch of a media row never falls, and only an invalidation of that id moves it; a malformed epoch counts as one |
| CheckpointLaws.EpochNeverFalls | src-tauri/src/db.rs:1729-1756 | Over any interleaving of stale, current and future snapshots with invalidations and other steps, while an id stays media its epoch never falls, and without an invalidation of it does not change |
| CheckpointLaws.InvalidationExactly | src-tauri/src/db.rs:1735-1754 | An invalidation of a readable row that is media, not completed, and whose epoch (missing and malformed count as zero) is below the last one stamps the next epoch and leaves no progress; at the last one it fails; any other row keeps its checkpoint |
| CheckpointLaws.InvalidationSucceedsExactly | src-tauri/src/db.rs:1647-1756 | It succeeds if and only if every row is readable, the id has a row, and that is no unfinished media item at the last epoch |
| CheckpointLaws.ProgressWasFenced | src-tauri/src/db.rs:2306-2322 | After any run of any steps, progress stored beside an epoch was there from the start, or was saved or imported from a document carrying exactly the epoch then, and still, persisted, or was restored from a backup where no usable row was |
| CheckpointLaws.InvalidatedCheckpoint | src-tauri/src/db.rs:1729-1756 | In any run an invalidation leaves the checkpoint of a row, or drops the progress and stamps the next epoch, which is above the one fenced with if and only if that was readable |
| CheckpointLaws.InvalidationFencesOff | src-tauri/src/db.rs:1729-1756 | After an invalidation of an unfinished media item with a readable epoch below the last one, in a table whose rows are all readable, while the id stays media, any progress a run ends with was saved from a document of a later epoch: no earlier snapshot brings its progress back |
| CheckpointLaws.MalformedEpochIsNotFenced | src-tauri/src/db.rs:2243-2258 | An unfinished media item with a malformed epoch is fenced as one before and after its invalidation, so every earlier snapshot brings its progress back |
| CheckpointLaws.MalformedItemReturns | src-tauri/src/db.rs:2243-2258 | One unfinished media item with a malformed epoch, and the snapshot that brings its progress back |
| JournalLaws.JournalHoldsNewest | src-tauri/src/db.rs:1475-1516 | After any run every journal entry is the largest generation recorded since the last clear or recovery |
| JournalLaws.RecordKeepsLarger | src-tauri/src/db.rs:1490-1510 | Recording over an entry keeps the larger generation |
| JournalLaws.EntrySurvives | src-tauri/src/db.rs:1475-1531 | An entry survives any steps but its clear and a recovery |
| JournalLaws.CompletionReachesTheNextStart | src-tauri/src/db.rs:1533-1605 | A recorded completion survives any snapshots and mutations, and the next successful recovery leaves its row completed in index and document, all else untouched and the journal empty |
| JournalLaws.RecoveryDelivers | src-tauri/src/db.rs:1533-1605 | What one successful recovery makes of a journaled id and of everything else |
| JournalLaws.StuckRowBlocksEveryStart | src-tauri/src/db.rs:1563-1590 | One journaled row that cannot be completed fails the journal recovery of every start and freezes the row, over any run that neither writes it nor clears its entry |
| JournalLaws.RestoredAgreesExactly | src-tauri/src/db.rs:592-612 | Index and document of a restored row agree if and only if the document has a status, and the row can be completed if and only if that is not empty |
| JournalLaws.RestoredStuckExactly | src-tauri/src/db.rs:1563-1590 | A journaled id that any backup recovery restored blocks the next journal recovery if and only if the document chosen for it has no non-empty status |
| JournalLaws.JournalAppliesAfterRecovery | src-tauri/src/db.rs:1533-1605 | The journal recovery behind any backup recovery succeeds if and only if every journaled generation is a number and every journaled id can be completed in the row it keeps or the document it is restored from |
| JournalLaws.RestoredStatusBlocksEveryStart | src-tauri/src/db.rs:1533-1605 | Such a document fails the journal recovery of every start after the restore, over any run that neither writes the row nor clears its entry |
| JournalLaws.DefaultedStatusBlocksRecovery | src-tauri/src/db.rs:592-595 | The first input: a document without a status, completed in the index alone |
| JournalLaws.EmptyStatusBlocksRecovery | src-tauri/src/db.rs:592-595 | The second input: a document with an empty status, which agrees with its index |
| Credentials.Vault.SetPassword | src-tauri/src/db.rs:3044-3064 | Setting writes the entry, or the only legacy one; success means the password is read back, and no other secret moves |
| Credentials.Vault.GetPassword | src-tauri/src/db.rs:3071-3083 | A read returns the entry or the only legacy one, and several legacy entries are an error |
| Credentials.Vault.DeletePassword | src-tauri/src/db.rs:3095-3111 | The deleting loop leaves no entry on success, and may stop part-way on an error |
| Credentials.Vault.SaveSiteLogin | src-tauri/src/db.rs:1354-1395 | The save saga: success adds the row and the secret to a login that had neither; a refusal changes nothing; an undone save restores the settings and leaves no secret; a failed rollback is reported only after two calls failed |
| Credentials.Vault.DeleteSiteLogin | src-tauri/src/db.rs:1397-1429 | The delete saga: success removes the row and every secret; an undone delete restores the row; a failed rollback is reported only after two calls failed |
| Credentials.Vault.RemoveTokenFromSettings | src-tauri/src/db.rs:2888-2897 | The token leaves the settings, or nothing changes |
| Credentials.Vault.MigrateLegacyPairingToken | src-tauri/src/db.rs:2904-2936 | Migration: success moves the token out of the settings into the credential store unless that holds one; an error leaves the settings copy |
| Credentials.Retained | src-tauri/src/db.rs:1308-1318 | Removing a login drops every entry with its id and keeps exactly the others |
| CredentialLaws.StepKeepsGuarded | src-tauri/src/db.rs:1354-1429 | A saga that does not report a failed rollback keeps every stored secret beside its metadata row |
| CredentialLaws.GuardedInEveryRun | src-tauri/src/db.rs:1354-1429 | So does every sequence of them, however the calls fail |
| CredentialLaws.TokenInEveryRun | src-tauri/src/db.rs:2904-2936 | A usable pairing token stays in at least one store through every sequence of sagas, failed rollbacks included |
| CredentialLaws.SavedLoginStays | src-tauri/src/db.rs:1354-1395 | A saved login stays in the settings with its pattern and user name, and its password in the credential store, until a deletion names it |
| CredentialLaws.DeletedLoginStaysGone | src-tauri/src/db.rs:1397-1429 | A deleted login stays absent from both stores until a save names it |
| CredentialLaws.SavedSettings | src-tauri/src/db.rs:1264-1294 | A successful save appends exactly the new login to the settings, or to those of a first run, and leaves everything else of them |
| CredentialLaws.DeletedSettings | src-tauri/src/db.rs:1296-1322 | A successful deletion takes exactly the logins of the id out of the settings and leaves everything else of them |
| CredentialLaws.RetainedOrder | src-tauri/src/db.rs:1308-1318 | The logins that are left keep their order |
| CredentialLaws.MigratedSettings | src-tauri/src/db.rs:2904-2936 | A successful migration takes a token that is not blank, and nothing else, out of the settings, and without one does nothing |
| CredentialLaws.IdsExactly | src-tauri/src/db.rs:1324-1333 | Which ids are refused: empty ones, ones with a blank at an end, and the key of the pairing token |
| CredentialLaws.InputsExactly | src-tauri/src/db.rs:1335-1352 | Which inputs are refused, character by character |
| Characters.Trim | src-tauri/src/db.rs:1324-1333 | Trimming leaves exactly the texts without blanks at their ends unchanged, and nothing of a blank one |
| Promotion.OwnSuffixOwner | scripts/engine-payload-promotion.js:28-33 | A publisher is read back as the owner of its own backup name |
| Promotion.FileSystem.RemovePathWithRetry | scripts/engine-payload-promotion.js:107-119 | At most six attempts; success removes the path, failure or a crash may leave part of it, and nothing else changes |
| Promotion.FileSystem.RecoverInterruptedPromotion | scripts/engine-payload-promotion.js:85-101 | Recovery moves the only candidate, if it is a directory, to the vacant destination; with several candidates or another kind of file it throws and changes nothing |
| Promotion.FileSystem.RemoveOrphanedPreviousPayloads | scripts/engine-payload-promotion.js:45-51 | The loop removes exactly the backups of dead processes, or part of them on an error |
| Promotion.FileSystem.UndoOrYield | scripts/engine-payload-promotion.js:142-159 | A failed publication puts the old payload back, or discards it when another publisher won |
| Promotion.FileSystem.Publish | scripts/engine-payload-promotion.js:131-163 | What the renames and deletes may leave, ending normally, throwing, or crashing after any of them |
| Promotion.FileSystem.PromoteDirectory | scripts/engine-payload-promotion.js:125-164 | Recovery, the staging check, and the publication; without faults and rivals it succeeds exactly when recovery can, the staging path is a directory and its backup name is free |
| Promotion.FileSystem.Provision | scripts/provision-engines.js:170-285 | A whole provisioner: recover, build, promote, and delete the staging directory; without faults it succeeds exactly when recovery can |
| PromotionLaws.RecoverKeepsSafe | scripts/engine-payload-promotion.js:85-101 | From a safe state recovery restores the published payload, whole, and nothing else |
| PromotionLaws.RecoverableExactly | scripts/engine-payload-promotion.js:89-97 | With a vacant destination, recovery can restore exactly when there is one candidate, and there is at least one exactly when something was published |
| PromotionLaws.PromoteKeepsSafe | scripts/engine-payload-promotion.js:125-164 | However a promotion ends, the payload published last is whole at the destination, or in a backup while there is none |
| PromotionLaws.CleanupSafeExactly | scripts/engine-payload-promotion.js:45-51 | The orphan cleanup alone is safe if and only if the destination is there or a backup without a dead owner holds the payload |
| PromotionLaws.CleanupCanLosePayload | scripts/engine-payload-promotion.js:45-51 | It does not look at the destination, so it can delete the last copy |
| PromotionLaws.ProvisionKeepsSafe | scripts/provision-engines.js:170-285 | One provisioner, however it ends; a successful one leaves its own payload whole |
| PromotionLaws.PublishedPayloadSurvives | scripts/engine-payload-promotion.js:125-164 | Over any sequence of provisioners that succeed, throw or crash after any file operation, the last published payload survives whole where recovery looks |
| PromotionLaws.PublishedIsRecent | scripts/engine-payload-promotion.js:125-164 | The payload recovery would restore was published by the last successful run, or by one after it or its rival |
| PromotionLaws.ProtectedBackupStays | scripts/engine-payload-promotion.js:28-51 | However a promotion ends over an existing destination, a backup whose name shows no process id, or that of a running process, is as it was, but for its own |
| PromotionLaws.GoneBackupsGo | scripts/engine-payload-promotion.js:45-51 | A promotion that succeeds leaves no backup of a process that is gone |
| PromotionLaws.ProvisionSparesProtected | scripts/provision-engines.js:170-285 | The first of these for a whole provisioner |
| ContentRange.ParseExactly | scripts/engine-download.js:12-25 | The header parser accepts exactly the texts of the form `bytes a-b/c` or `bytes a-b/*` with safe, ordered numbers, and returns these numbers |
| ContentRange.PrintedParses | scripts/engine-download.js:12-25 | A range that was printed parses back to itself |
| ContentRange.PrintedLength | scripts/engine-download.js:27-32 | A length that was printed reads back, and one beyond the safe integers counts as none |
| ContentRange.LengthExactly | scripts/engine-download.js:27-32 | A content length counts if and only if it is digits alone that spell a safe integer |
| ArchiveDownload.Downloader.ResetArchive | scripts/engine-download.js:119-132 | A reset removes the file, or changes nothing; once aborted it removes nothing |
| ArchiveDownload.Downloader.TryOnce | scripts/engine-download.js:164-222 | One request: what it returns has the expected digest, and the file is as it was, removed, replaced, or appended to, as the accepted answer allows; all missing bytes under honest headers are returned; an answer that does not fit changes nothing, and one whose announced final size is not that of the stored file is never returned and asks for no reset |
| ArchiveDownload.Downloader.Attempt | scripts/engine-download.js:152-245 | One turn of the loop; undisturbed, an answer with all missing bytes under honest headers ends it, and an archive that turned out useless (a digest mismatch at the announced size, or a range behind the file) is removed |
| ArchiveDownload.Downloader.DownloadEngineArchive | scripts/engine-download.js:140-248 | What is returned has the expected digest after at most `attempts` requests; nothing is reset once the abort is seen; against a faithful server each attempt starts from a prefix of the file, from the start or from the first reset on; undisturbed, one answer with all missing bytes under honest headers is enough |
| ArchiveDownload.StoredKeepsPrefix | scripts/engine-download.js:180-204 | True prefixes and true ranges keep the archive a prefix of the file |
| Utf8.EncodedDecodes | scripts/smoke-torrent.js:106 | UTF-8 text decodes to itself |
| Utf8.DecodedEncodes | scripts/smoke-torrent.js:150 | Only well-formed encodings decode |
| Utf8.OrderAgrees | scripts/smoke-torrent.js:115 | Comparing encoded keys byte by byte is comparing the texts character by character |
| Bencode.Decoder.Parse | scripts/smoke-torrent.js:127-166 | The recursive parser with its shared position and loops computes the value and the position after it |
| Bencode.Decoder.Decode | scripts/smoke-torrent.js:125-170 | One value, and an error if bytes are left |
| Bencode.ParseAt | scripts/smoke-torrent.js:127-166 | Each call consumes at least one byte or fails, so parsing ends |
| BencodeLaws.PrintReads | scripts/smoke-torrent.js:102-166 | Wherever an encoding stands, the parser reads its value and stops right behind it |
| BencodeLaws.RoundTrip | scripts/smoke-torrent.js:102-170 | Decoding an encoding gives the value back in canonical form, which encodes to the same bytes |
| BencodeLaws.CanonicalStays | scripts/smoke-torrent.js:102-170 | A value without text whose maps are in key order comes back as it is |
| BencodeLaws.CanonKeepsMap | scripts/smoke-torrent.js:143-155 | A decoded map holds under every key what the encoded one held, and nothing else |
| BencodeLaws.PrintIgnoresOrder | scripts/smoke-torrent.js:113-120 | The encoding of a map does not depend on the order of its members |
| BencodeLaws.CanonPrintsSame | scripts/smoke-torrent.js:102-123 | Re-encoding gives the same bytes |
| BencodeLaws.TrailingRejected | scripts/smoke-torrent.js:167-169 | An encoding followed by any bytes is rejected |
| BencodeLaws.TruncatedRejected | scripts/smoke-torrent.js:125-170 | An encoding cut short at any byte is rejected |
| BencodeLaws.ParseStable | scripts/smoke-torrent.js:127-166 | What is read does not depend on the bytes behind it |
| BencodeLaws.InfoSurvives | scripts/smoke-torrent.js:885-888 | The info dictionary of a decoded torrent encodes to the bytes of the original, so their hashes agree |
| BencodeGrammar.ParsesExactly | scripts/smoke-torrent.js:127-166 | For every input and every position: a value is read up to a position if and only if the bytes between spell a tree of the grammar that means the value |
| BencodeGrammar.DecodesExactly | scripts/smoke-torrent.js:125-170 | A whole input is accepted if and only if it spells such a tree, and its meaning is returned |
| BencodeGrammar.PrintedSays | scripts/smoke-torrent.js:102-123 | The printer writes texts of the grammar |
| BencodeGrammar.DictionaryHolds | scripts/smoke-torrent.js:143-155 | A decoded dictionary holds under every key the value of its last entry for that key, and nothing else |
| BencodeGrammar.SetExactly | scripts/smoke-torrent.js:150 | Setting a key changes that key alone and keeps the place of a known one |
| BencodeGrammar.PrintedKeysAscend | scripts/smoke-torrent.js:115 | The keys of a printed map stand in character order |
| BencodeGrammar.PrintedInteger | scripts/smoke-torrent.js:107-109 | An integer prints as its digits without a leading zero, behind a minus sign if and only if it is negative |
| Filenames.TruncateUtf8ToBytes | src-tauri/src/download_ownership.rs:82-92 | The loop returns the longest prefix of whole characters within the budget |
| Filenames.TruncatedIsLongest | src-tauri/src/download_ownership.rs:82-92 | The cut falls between characters, fits, and no longer prefix fits |
| FilenameLaws.CanonicalNameIsClean | src-tauri/src/download_ownership.rs:13-80 | For every input the name is one non-empty segment, never `.` or `..`, free of control and forbidden characters, and at most 255 bytes |
| FilenameLaws.ExtensionKept | src-tauri/src/download_ownership.rs:55-79 | A name that is too long keeps an extension of at most 251 bytes with its dot, behind the longest cut of its stem that fits |
| FilenameLaws.CanonicalNameIsTrimmed | src-tauri/src/download_ownership.rs:37-53 | A name that was not cut begins with no blank and ends with no dot or space |
| FilenameLaws.DirectoriesIgnored | src-tauri/src/download_ownership.rs:17-21 | Only the part behind the last slash or backslash counts |
| FilenameLaws.CleanNameStays | src-tauri/src/download_ownership.rs:17-53 | A clean name that fits, without blanks around it or a dot behind it, is kept unless it names a device |
| FilenameLaws.SanitizedIsCore | src-tauri/src/download_ownership.rs:17-37 | The sanitised name is the last segment with a hyphen for each reserved character, without the blanks around it and the dots and spaces behind |
| FilenameLaws.ReplacedNameStays | src-tauri/src/download_ownership.rs:22-53 | A name of one segment becomes itself with hyphens for reserved characters, if that is tidy, fits, and is no device |
| FilenameLaws.ReplacedExample | src-tauri/src/download_ownership.rs:22-53 | The canonical name of `a:b.txt` is `a-b.txt` |
| DeviceLaws.ReservedExactly | src-tauri/src/platform.rs:565-582 | A name is reserved if and only if it spells one of the 25 device names in any case, then spaces, up to its first dot or its end |
| FilenameLaws.CanonicalReservedExactly | src-tauri/src/download_ownership.rs:37-80 | For every suggestion the canonical name is a device name if and only if the sanitised one is and its stem has a dot that the cut keeps, or the name is cut without a mark in front of its first dot behind a device name and spaces |
| FilenameLaws.DeviceWithTwoExtensions | src-tauri/src/platform.rs:565-582 | The first case: `con.tar.gz` stays reserved |
| FilenameLaws.CutMakesADevice | src-tauri/src/download_ownership.rs:66-71 | The second case: a name that is no device is cut down to one |
| LockDiff.CancelUnchanged | scripts/check-updates.js:371-379 | The descending splice loop computes the multiset difference in both directions |
| LockDiff.GroupChanges | scripts/check-updates.js:382-403 | Pairs and leftovers report exactly the versions on both sides |
| LockDiff.BuildGroups | scripts/check-updates.js:355-364 | Each group holds exactly the versions of its key in both graphs |
| LockDiff.DiffCargoMetadata | scripts/check-updates.js:352-405 | The changes are the difference of the graphs in every group, no group has leftovers on both sides, and a missing package list is an error |
| LockDiff.DifferenceOfListed | scripts/check-updates.js:342-405 | What a diff reports under a name and a source is the difference of the versions that the two package lists hold under them, where a missing or empty source counts as `path` |
| LockDiff.ListedSeparate | scripts/check-updates.js:342-358 | The versions of a group are those listed under its name and source |
| LockDiff.DifferenceIsPatch | scripts/check-updates.js:367-403 | Taking the removed versions from the current ones and adding the new ones gives the updated ones, and no version is both |
| LockDiff.KeysSeparate | scripts/check-updates.js:358 | For names without a NUL character the groups are the pairs of name and source |
| LockDiff.KeyUniqueExactly | scripts/check-updates.js:358 | A pair of name and source has a key of its own if and only if neither holds a NUL character |
| LockDiff.KeysCanCollide | scripts/check-updates.js:358 | Two pairs that share a group |

## Left out

Weaker than the source on purpose:

- CheckpointLaws.EpochStep: a mutation other than an invalidation is taken to keep the checkpoint fields, as the closures of all callers do (src-tauri/src/queue.rs:5806, src-tauri/src/lib.rs:8850, 8946, 9078, 9122, 13688, 13720, 13744, 13769, 15324, 15355, 15431, 15453).
- CheckpointLaws.EpochNeverFalls: the same, and rows are taken to name their ids, which every step then keeps.
- Credentials.Vault.RemoveTokenFromSettings: removes the token; the other rewriting by `sanitize_settings_text`, which also happens here, is not modelled.
- OwnershipLaws.ExclusiveInEveryRun: covers the ownership operations; for backup recovery and legacy import see RecoveryClaims.RecoveryKeepsExclusiveExactly and RecoveryClaims.ImportKeepsExclusiveExactly.
- Ownership.OwnerForPath: the legacy rows guessed from old queue files are a parameter.
- Promotion.FileSystem.Provision: provisioners run one after another, process ids are not reused while their backups exist, and payloads are not empty; a rival only fills a vacant destination.
- PromotionLaws.PublishedPayloadSurvives: concurrent provisioners that also crash are not covered; there the cleanup can delete the last copy, see PromotionLaws.CleanupCanLosePayload.
- BencodeLaws.RoundTrip: safe integers and maps with UTF-8 keys; other numbers print as JavaScript formats them and are not modelled.
- Credentials.Vault.SaveSiteLogin: on other systems than Linux there are no legacy entries, which is the case of an empty `legacy` map.
- Filenames.TruncateUtf8ToBytes: counts characters beside bytes instead of slicing by byte offset.
- LockDiff.DiffCargoMetadata: both sorts are arbitrary rearrangements, because the collation of `localeCompare` is not modelled; nothing is said about the order of the changes.

Not modelled:

- The URL capture half of the coordinator, its event sinks, and the bounded capacity of its channels.
- Statement order inside SQLite, table schemas and migrations, row ids beyond the order of rows, and file copies of the database.
- JSON text: encoding, decoding and number formatting of documents.
- The redaction of portable documents is a function parameter that keeps the identifying fields; which headers or trackers it removes is not modelled.
- The listing of backup files and their order by age: candidates are a parameter, newest first.
- The order of path lists, and `path_identity` (src-tauri/src/platform.rs:508-563), which is a function parameter.
- Saves of the settings document outside the sagas.
- The lock file around credential operations: sagas run one at a time.
- The removal worker's deletion of files; only its table writes are steps.
- `removeOrphanedProvisioningDirectories`: it touches only staging directories.
- Windows path prefixes in suggested file names; paths are read as on Unix.
- The delays between retries, the idle timer's refresh, and response body cancellation beyond its failure.
- UTF-16 strings with lone surrogates; texts are sequences of Unicode scalar values.
- Aria2 cache and manifest checks, packaging and smoke scripts, settings sanitisation, window geometry and the user interface.
