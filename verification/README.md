# A verified model of the scanner's stateful core

Nine components of the repository are modelled in Dafny, and the properties their code and documentation promise
are proved for all inputs, all runs and all reachable states.

| component | files | form |
|---|---|---|
| incremental scan planner | `IncrementalScan.dfy`, `IncrementalRuns.dfy`, `IncrementalDeletions.dfy` | manifest class with the worklist loop; runs of edit, plan, scan and update, without and with deletions |
| audit trail | `AuditEvents.dfy`, `AuditChain.dfy`, `AuditQueries.dfy`, `AuditAlerts.dfy`, `AuditTrail.dfy`, `AuditTampering.dfy`, `AuditCoverage.dfy` | hash chain, what it notices, queries and alerts as specifications; a class whose methods meet them |
| event log | `EventLogging.dfy`, `EventTampering.dfy`, `EventCoverage.dfy` | hash chain whose hashes do not cover the previous one; class |
| bounty marketplace | `BountyLedger.dfy`, `BountyRuns.dfy`, `BountyAccess.dfy`, `BountyWithdrawals.dfy`, `BountyCalls.dfy`, `BountyContract.dfy` | a state machine over a flat ledger; runs; who may act; what may be withdrawn; when each call succeeds and what it changes; the contract class with its creator-to-list storage, which refines it |
| certificate registry | `ScanRegistry.dfy`, `RegistryCalls.dfy`, `ProofOfScan.dfy` | a state machine with its runs; when each call succeeds and what it changes; the contract class with the cleanup loops, which refines it |
| batches | `BatchOperations.dfy` | contract class |
| gas estimation | `GasLimits.dfy` | classes with checked arithmetic |
| address filter | `AddressFilter.dfy` | class with the feed merge loops |
| scan sharing | `ScanAccess.dfy` | a record as a function of its history; class |

`Foundations.dfy` holds what they share, above all a stable sort with its characterisation (`StableSort`): a sorted
sequence whose elements with equal keys are those of the input in the input's order, which determines it.

## Conventions

- A contract call that panics is a failure: the method returns an error and the state is as before. The order of the
  checks, and so the error reported, is the code's.
- Clocks, authorisations, fresh identifiers, collected file information, feed answers and measured gas are parameters.
- Integers are unbounded; where the code's `u64` or `i128` can leave its range the model aborts, as overflow-checked
  arithmetic does, except for the atomic id counters, which wrap.
- SHA-256 is any function with 64-character results. Nothing is assumed about collisions: results about what a hash
  commits to end in "or here are two different texts with one digest".
- Strings are byte strings, one character for each byte.
- The ledger clock of the certificate registry never runs backwards; nothing else is assumed about clocks.
- A file's dependency list is a function of its hash, and a scanner's result for a file depends on the file and its
  transitive dependencies only; both are hypotheses of the theorems that need them.

## What is proved

- **Skipping is sound.** The worklist computes the least set that holds the changed files and everything depending on
  one of its members, on every graph, cycles included. After any run without deletions the results of each file's last
  scan equal those of a full scan, `src/x.rs` taking over from `src/x/mod.rs` included. (The tool prints what a run
  scanned and keeps no results; `results` is the model's record of each file's last scan.) Deleted and restored files are no changes to the
  planner (`src/incremental_scan.rs:194-195`), and the manifest keeps entries of deleted files. `SkipIsSoundIff` says for
  every manifest exactly when one skip is sound: the file and all it now reaches were there at the last update, and all
  it reached then still is. `RecordHoldsIff` says it for whole runs: since the file's last scan, no file of the closure
  scanned then was ever absent, and the file never reached one that was absent at that scan. Both halves are needed:
  `RestoredFileKeepsStaleResult` and `RestoredFileTakesOverUnnoticed` are runs in which one of them fails, and
  `ResultRightIffSeenAlike` shows that what then differs is visible to some scanner.
- **The last audit hash commits to the whole history**: two intact trails of one length end in one hash exactly if all
  their hashed bodies are the same, or are so after an index at which two different texts have one digest
  (`LastHashAgreesIff`). An intact trail whose contents are altered in any number of entries stays intact exactly if each
  alteration keeps the hashed body or collides (`AuditTampering.AlterationUnnoticedIff`). A recording that evicts
  rehashes the trail, and the hash it answered is then no longer the one stored, unless a collision is exhibited
  (`AnsweredHashIsStoredIff`). In the event log, by contrast, the hash does not cover the previous hash, so the last one
  commits to the last event alone (`LastEventHashForgetsHistory`); alterations are noticed just as in the audit trail
  (`EventTampering.AlterationUnnoticedIff`). What is hashed is covered field by field: a changed action, severity, user or
  any other of the eighteen audit fields, and of the twelve event fields, goes unnoticed exactly if it is no change on
  the wire or the texts collide (`ChangeIsNoticedIff` of both).
- **The marketplace conserves money.** Balance is deposits plus replenishments minus payouts in every run. It covers
  all bounties not yet Completed exactly while withdrawals do not exceed replenishments and unpaid shares
  (`SolventIff`), so always without withdrawals, and then no claim lacks funds. `WithdrawalBreaksSolvency` is a run in
  which a withdrawal, which marks no bounty, leaves an approved claim without funds. Each bounty is paid by a claim at
  most once, and only after the admin's and the owner's approval and to the researcher last assigned. Since only the
  contract itself counts as assigning, nothing is ever paid unless it is the admin or creates bounties itself
  (`NothingIsEverPaid`). What a researcher may withdraw is what the approved bounties are due exactly if none of them was
  assigned to the researcher twice (`AvailableIsDueIff`); `TwiceAssignedTakesTwice` is a run in which one was. A
  withdrawal succeeds exactly for a positive amount covered by the balance and by what is listed as due
  (`WithdrawSucceedsIff`).
- **At most one certificate of a contract is in force** at any time, it is the mapped one, and clearance says precisely
  that; revocation is permanent; cleanup leaves the two maps consistent, and takes away a clearance exactly if the report
  behind it is from before the cutoff (`CleanupKeepsClearanceIff`). Every stored certificate was minted by the scanner of
  the time for a report of Low or Medium risk, and runs for the days named (`EveryCertificateWasMinted`).
- **The other components** account for every item, keep exactly the newest, and agree with their histories or closed
  forms; see the table.

## Where code and documentation disagree

The model follows the code.

- The audit trail promises that any change to history is detectable (`src/audit_trail.rs:742-745`), the event hash that
  all fields are covered (`src/event_logging.rs:198`). Both hash fields joined without separators: text may move between
  neighbouring fields unnoticed (`TextMovesBetweenFields`), so that an intact trail stays intact when an entry's user
  changes (`UserChangesUnnoticed`, `ActorChangesUnnoticed`). The time of recording is not covered
  (`RecordingTimeIsNotCovered`), nor are an event's metadata, duration, gas and ledger sequence
  (`UncoveredFieldsUnnoticed`).
- The resolver is meant to find the file behind an import. A path to an item of a module, as
  `use crate::config::ScannerConfig` gives, resolves only to a file of the item's own name, whether or not the module
  resolves (`ItemResolvesIff`), so a file that imports only items is skipped when their module changes
  (`ItemImportIsMissed`). `super::` is documented as relative to the parent module and is taken for `crate::`
  (`SuperMeansCrate`).
- The estimated duration of a full scan is, for as many files as before, that of the last scan, however few files that
  scanned (`EstimateIsLastDuration`).
- `get_contract_certificate` (`src/audit_proof_of_scan.rs:433-451`) expires an expired certificate and then aborts, which
  undoes it (`ExpiryIsUndone`): no certificate is ever stored as Expired (`NothingIsEverExpired`).
- `verify_certificate_not_revoked` promises "active and not in the CRL", but never looks at the expiry. In every
  reachable registry it is true exactly for stored Active certificates, and so agrees with being in force exactly while
  the certificate has not run out (`VerifiesIffActive`); `ExpiredCertificateVerifies` is one that has.
- Cleanup sorts by a field `timestamp` that the certificate does not have (`src/audit_proof_of_scan.rs:713`); the model
  takes `issued_at`.
- `checked_sub_i128` is called at `src/bounty_marketplace.rs:155-175` but not defined; it is taken as the counterpart of
  `checked_add_i128`. The subtraction follows a check of the balance and cannot overflow.
- `assign_researcher` is meant for creator or admin, but compares the contract's own address with both. It succeeds
  exactly if the contract created the bounty or is the admin (`AssignSucceedsIff`); `CreatorIsRefused` is a bounty whose
  creator cannot have a researcher assigned.
- `check_timelock` moves a bounty from Timelocked to Active, but no other call asks for Active. Approval depends on
  neither status nor clock, short of Completed (`ApprovalSucceedsIff`), nor does a claim look at the clock
  (`ClaimSucceedsIff`): a bounty can be created, approved and paid at one moment (`ClaimedWithinTimelock`).
- The percentage is cut down, and a payout of zero is refused: a Low bounty under 4 or a Medium one of 1 can never be
  claimed (`ClaimSucceedsIff`).
- A batch estimate's risk level is always High, because it compares a total with the same total and ten percent more
  (`MarginMeansHighRisk`).
- When not one item fits into a split, the code suggests one split fewer than there are items; with at least one
  fitting, it suggests the least sufficient number (`SplitAdviceBound`). The advised splits have room for the batch
  exactly if one item fits (`AdviceCoversIff`); `AdviceMayNotCover` is a batch of two for which none does. It need not
  cure the warning: the threshold test includes the ten percent margin, the advice does not, and a batch over the
  threshold by its margin only is advised not to split (`MarginAloneSplitsNothing`, `ExceedingBatchIsNotSplit`).
- The comment in `share_scan` lets an admin share; the code lets the owner only (`ShareSucceedsIff`). The sharing expiry
  is one for the whole scan: sharing with one user moves the expiry of all (`HistoryDeterminesRecord`).
- A default expiry of none is documented as no expiration and yields 720 hours, or the maximum if that is less
  (`EveryShareExpires`).
- `share_scan` refuses at the recipient limit before it looks whether the user is already listed: a listed user's share
  cannot be renewed exactly if the list is full (`RenewalFailsIffFull`, and `FullListCannotRenew` for a limit of one).
- `add_to_whitelist` and `add_to_blacklist` refuse expired and inactive entries, but nothing else looks at validity: a
  listing decides at any later time (`ExpiredEntryStillBlocks`), and feeds list invalid entries like valid ones
  (`MergeIgnoresValidity`).
- A batch that is Completed answers its summary when executed again, but only while that is stored. The newest thousand
  are kept whatever their status (`KeptIffFewNewer`), and `CompletedBatchRunsAgain` executes a Completed batch anew.

## Model

| member | source | states |
|---|---|---|
| IncrementalScan.Resolve | src/incremental_scan.rs:259-294 | a module path resolves only to a file of the project |
| IncrementalScan.ResolveAgrees | src/incremental_scan.rs:259-294 | a module path resolves alike in two projects exactly when neither holds its target without the other holding it |
| IncrementalScan.NewFileTakesOver | src/incremental_scan.rs:274-291 | adding a file redirects a module path exactly if it is the `.rs` candidate, or the `mod.rs` candidate of a path that resolved to nothing |
| IncrementalScan.ItemResolvesIff | src/incremental_scan.rs:259-294 | a path to an item of a module resolves exactly if there is a file or directory module of the item's own name |
| IncrementalScan.SuperMeansCrate | src/incremental_scan.rs:257-270 | `super::` resolves as `crate::` does, from whatever file |
| IncrementalScan.ItemImportIsMissed | src/incremental_scan.rs:201-226 | a project in which a changed module's importer is skipped because it names an item of it |
| IncrementalScan.EstimateIsProportional | src/incremental_scan.rs:235-243 | the estimate is proportional to the number of files |
| IncrementalScan.EstimateIsLastDuration | src/incremental_scan.rs:235-243 | for as many files as before the estimate is the last scan's duration, and without a record it grows by five seconds a file |
| IncrementalScan.ScanSetIsLeast | src/incremental_scan.rs:178-226 | the files to scan are the least set with all new and modified files that is closed under "depends on a member" |
| IncrementalScan.FrontierStep | src/incremental_scan.rs:217-226 | one worklist step keeps every unhandled file queued, and marks a new file or shortens the queue, so that the loop ends on every graph |
| IncrementalScan.ReplanScansNothing | src/incremental_scan.rs:133-226 | planning right after an update on the same files finds nothing to scan |
| IncrementalScan.UpdatedFilesInsert | src/incremental_scan.rs:148-165 | handling one file inserts its entry and reads the scan time from before the update |
| IncrementalScan.ScanManifest.constructor | src/incremental_scan.rs:65-76 | a new manifest knows no file |
| IncrementalScan.ScanManifest.Update | src/incremental_scan.rs:133-166 | every present file gets its current hash and dependencies, with the time of this scan if it was scanned or is new and the old time otherwise; absent files stay as they were |
| IncrementalScan.ScanManifest.InvertDependencies | src/incremental_scan.rs:197-211 | the inverse graph holds exactly the resolved dependencies, turned round |
| IncrementalScan.ScanManifest.Propagate | src/incremental_scan.rs:213-226 | the worklist ends with exactly the files from which a changed file is reachable, whatever order the hash sets yield |
| IncrementalScan.ScanManifest.MarkDependents | src/incremental_scan.rs:219-224 | each dependent not yet marked is queued exactly once |
| IncrementalScan.ScanManifest.ComputeAffectedFiles | src/incremental_scan.rs:172-251 | the plan scans that least set, skips the rest, counts all files, and estimates a full scan from the last one |
| IncrementalRuns.UnmodifiedClosure | src/incremental_scan.rs:133-294 | if nothing a file now reaches was modified, its dependency closure is the former one exactly when no file of that was deleted; added files do no harm |
| IncrementalRuns.CommonClosure | src/incremental_scan.rs:172-294 | two projects that agree on what a file reaches in both show it alike exactly if neither lacks a file the other's closure holds |
| IncrementalRuns.UpdateRemembers | src/incremental_scan.rs:133-166 | after any update the manifest knows every present file by its hash, whatever it held before |
| IncrementalRuns.SkipIsSoundIff | src/incremental_scan.rs:172-251 | for every manifest, entries of deleted files included, a skipped file is seen as at the last update exactly if it was there then, no file of its closure went away since, and it reaches none that was away then |
| IncrementalRuns.RunKeepsInvariant | src/incremental_scan.rs:133-251 | in every run without deletions the manifest describes the last project, and each file's record is that of a scan at which it looked as now |
| IncrementalRuns.SkippedFilesAreUnaffected | src/incremental_scan.rs:133-251 | the recorded result of every present file is what scanning it now would give, and its recorded scan time that of a visit with the same unmodified closure |
| IncrementalRuns.IncrementalEqualsFullScan | src/incremental_scan.rs:133-294 | after any run of edits and additions the accumulated results equal a full scan of the present project |
| IncrementalDeletions.RunKeepsRecords | src/incremental_scan.rs:133-251 | in every run, deletions included, the manifest knows the last hash and last scan of every file it ever saw |
| IncrementalDeletions.UnscannedStaysAlike | src/incremental_scan.rs:133-251 | a file not scanned since a visit looks as it did then, while nothing it reached went away and nothing restored entered |
| IncrementalDeletions.RecordHoldsIff | src/incremental_scan.rs:133-294 | in every run, deletions and restorations included, a file looks at every visit since its last scan as it did then exactly if no file of the scanned closure was ever absent and it never reached one absent at the scan |
| IncrementalDeletions.HeldRecordIsCurrent | src/incremental_scan.rs:133-294 | the stored result of such a file is what a full scan would give |
| IncrementalDeletions.PlanIgnoresScanner | src/incremental_scan.rs:172-251 | when and what is scanned does not depend on the scanner |
| IncrementalDeletions.ResultRightIffSeenAlike | src/incremental_scan.rs:172-251 | a stored result is right for every scanner of closures exactly if the file looks as at its last scan |
| IncrementalDeletions.DeletedDependencyIsMissed | src/incremental_scan.rs:194-195 | a project in which a deleted dependency leaves its dependent skipped though its closure changed |
| IncrementalDeletions.RestoredFileKeepsStaleResult | src/incremental_scan.rs:182-195 | a run in which a file removed and restored keeps its result though its dependency changed and nothing is missing |
| IncrementalDeletions.RestoredFileTakesOverUnnoticed | src/incremental_scan.rs:182-195 | a run in which a restored `src/a.rs` takes over from `src/a/mod.rs` while its dependent is skipped |
| AuditChain.RechainedKeepsContents | src/audit_trail.rs:778-785 | rebuilding changes nothing but the two hash fields |
| AuditChain.RechainedIsIntact | src/audit_trail.rs:778-785 | a rebuilt chain is intact whatever stood there before |
| AuditChain.IntactIsRechained | src/audit_trail.rs:582-615 | the rebuilt chain is the only intact chain over given contents |
| AuditChain.LastEntriesAgree | src/audit_trail.rs:745-775 | two intact trails with one last hash end in equal bodies after equal predecessors, or in a collision |
| AuditChain.LastHashCommitsToHistory | src/audit_trail.rs:745-775 | two intact trails of one length with one last hash have equal hashed bodies and hashes at every index, or exhibit a collision |
| AuditChain.EvictionChangesLastHash | src/audit_trail.rs:503-508 | dropping the oldest entry and rehashing changes the last hash, or a rehashed text collides with its former one |
| AuditTampering.AlterationUnnoticedIff | src/audit_trail.rs:582-615 | an intact trail altered in any contents stays intact exactly if each altered entry keeps its hashed body or collides with its former text |
| AuditTampering.OneAlterationUnnoticedIff | src/audit_trail.rs:582-615 | the same for one entry |
| AuditTampering.AgreementGivesLastHash | src/audit_trail.rs:742-775 | intact trails that agree from the start, or after a collision, end in one hash |
| AuditTampering.LastHashAgreesIff | src/audit_trail.rs:742-775 | two intact trails of one length end in one hash exactly if all bodies agree, or agree after an index at which two different texts have one digest |
| AuditTampering.TextMovesBetweenFields | src/audit_trail.rs:745-775 | text may move from the end of the description to the front of the user id without changing the hashed body |
| AuditTampering.UserChangesUnnoticed | src/audit_trail.rs:582-615 | in every intact trail an entry by "c" described as "ab" can become one by "bc" described as "a" |
| AuditCoverage.ChangeKeepsBodyIff | src/audit_trail.rs:745-775 | changing any one of the eighteen hashed fields keeps the hashed body exactly if the field's text stays: enumerations and times have different texts, an absent text is an empty one |
| AuditCoverage.ChangeIsNoticedIff | src/audit_trail.rs:582-615 | in every intact trail such a change goes unnoticed exactly if it is none on the wire or the texts collide |
| AuditCoverage.OneFieldDecides | src/audit_trail.rs:745-775 | events that agree in all hashed fields but one have one body exactly if they agree in that one |
| AuditCoverage.LittleEndianDiffers | src/audit_trail.rs:748 | numbers that fit the width have different byte sequences of that width |
| AuditCoverage.TextOrder | src/audit_trail.rs:764-771 | metadata keys are compared byte by byte |
| AuditCoverage.MetadataInOrder | src/audit_trail.rs:764-771 | metadata is hashed as `key=value;` pairs, the first key first |
| AuditEvents.DigitsMean | src/audit_trail.rs:788-791 | numbers in ids are decimal |
| AuditChain.RecordingTimeIsNotCovered | src/audit_trail.rs:745-775 | altering an entry's time of recording never changes whether the trail verifies |
| AuditEvents.FieldsIgnoreHashes | src/audit_trail.rs:745-775 | the hashed text depends on neither hash field nor on the time of recording |
| AuditChain.MismatchesAreExact | src/audit_trail.rs:591-608 | a mismatch is reported exactly for each check that fails, with its index, id and kind |
| AuditChain.NoMismatchIffIntact | src/audit_trail.rs:610-614 | nothing is reported exactly when every hash recomputes and every link matches |
| AuditQueries.EveryFieldNarrows | src/audit_trail.rs:860-912 | each set filter field narrows by its own condition, time bounds inclusively; an empty filter admits everything and paging does not matter |
| AuditQueries.NarrowingFiltersTheAnswer | src/audit_trail.rs:545-574 | the matches of a stricter query are those of the looser one that satisfy it, in the same order |
| AuditQueries.SortedMatchesAreExact | src/audit_trail.rs:558-565 | the match list holds exactly the matching entries, newest first, ties in order of recording |
| AuditQueries.QueryAnswersWithSlice | src/audit_trail.rs:545-574 | exactly admins, security admins and auditors get an answer, and it is the requested slice of the one stable newest-first sort |
| AuditQueries.PagesRebuildTheList | src/audit_trail.rs:567-573 | consecutive pages of any sizes join to a prefix of the sorted matches, and to all of it once they are long enough |
| AuditAlerts.HitsAreExact | src/audit_trail.rs:634-644 | the events counted for a user are exactly the in-window Admin events with an address |
| AuditAlerts.Accumulate | src/audit_trail.rs:632-659 | after the loop each user with such events has a duplicate-free address list, exact count and true first and last times |
| AuditAlerts.CollectAlerts | src/audit_trail.rs:661-680 | exactly one alert for each user with enough distinct addresses, in any iteration order |
| AuditAlerts.DetectSuspicious | src/audit_trail.rs:632-683 | the same, sorted by distinct addresses descending |
| AuditTrails.AuditTrail.constructor | src/audit_trail.rs:448-454 | a new trail is empty |
| AuditTrails.AuditTrail.Record | src/audit_trail.rs:466-511 | recording adds the stamped event to the history, answers it linked to the last hash, and keeps the trail the chain over the newest events, appended to or rebuilt without the oldest; a disabled trail changes nothing |
| AuditTrails.AuditTrail.RebuildChain | src/audit_trail.rs:778-785 | the loop leaves the chain over the contents it found |
| AuditTrails.AuditTrail.VerifyChain | src/audit_trail.rs:582-615 | intact exactly when every hash recomputes and every link matches; the reports are the failing checks in order |
| AuditTrails.AuditTrail.RunQuery | src/audit_trail.rs:545-574 | exactly the three reading roles get an answer, and it is the requested slice of whatever sequence is the stable newest-first sort of the matching entries |
| AuditTrails.AuditTrail.DetectSuspiciousPatterns | src/audit_trail.rs:622-684 | an alert exactly for each user who reaches the minimum of distinct addresses within the window, with exact figures, sorted |
| AuditTrails.StampedKeeps | src/audit_trail.rs:476-480 | recording fills in a missing id from the wrapping counter, sets the time of recording, and keeps everything else |
| AuditTrails.FreshIdsDiffer | src/audit_trail.rs:788-791 | ids given out at one time with different counters are different |
| AuditTrails.RecordStep | src/audit_trail.rs:480-508 | linking one event and rebuilding when over the cap gives the chain over the newest events of the longer history |
| AuditTrails.AnsweredHashIsStoredIff | src/audit_trail.rs:480-510 | the hash a recording answers is the one stored last if nothing was evicted, and after an eviction only if a collision is exhibited |
| AuditTrails.RechainedDependsOnContents | src/audit_trail.rs:778-785 | a rebuild does not depend on the hashes it overwrites |
| AuditTrails.ValidTrailIsIntact | src/audit_trail.rs:466-511 | what every sequence of recordings keeps means: the chain is intact and holds exactly the newest recorded events in order |
| EventLogging.RangesCompose | src/event_logging.rs:488-542 | a range verifies exactly when both parts of it, sharing an index, verify |
| EventLogging.FieldsIgnoreHashes | src/event_logging.rs:199-224 | an event's hashed text depends on neither of its hash fields |
| EventLogging.RebuiltIsIntact | src/event_logging.rs:235-242 | a rebuild keeps contents and makes the whole store verify |
| EventLogging.LastEventHashFixesLastEvent | src/event_logging.rs:199-224 | two verifying stores end in one hash exactly if their last events have one text, or two texts collide |
| EventLogging.LastEventHashForgetsHistory | src/event_logging.rs:199-224 | the last hash fixes the last event only: after any two histories both stores verify, and end in one hash exactly if the last events have one text or collide |
| EventLogging.EvictionRewritesOneLink | src/event_logging.rs:263-267 | evicting from an intact store changes no event hash and only the link of the new oldest event |
| EventLogging.OrderedRetentionDropsPrefix | src/event_logging.rs:330-348 | with nondecreasing timestamps retention drops a prefix and what stays verifies |
| EventLogging.RetentionKeepsChainIff | src/event_logging.rs:330-348 | for any timestamps, the rest of an intact store verifies exactly when across every gap the hash before it equals the hash of its last event |
| EventTampering.AlterationUnnoticedIff | src/event_logging.rs:488-542 | a verifying store altered in any contents verifies exactly if each altered event keeps its hashed text or collides with the former one |
| EventTampering.OneAlterationUnnoticedIff | src/event_logging.rs:488-542 | the same for one event |
| EventTampering.TextIgnoresUncovered | src/event_logging.rs:198-224 | metadata, duration, gas and ledger sequence are no part of the hashed text |
| EventTampering.UncoveredFieldsUnnoticed | src/event_logging.rs:198-224 | in every verifying store they may be altered unnoticed |
| EventTampering.TextMovesBetweenFields | src/event_logging.rs:199-224 | text may move from the end of the description to the front of the actor without changing the hashed text |
| EventTampering.ActorChangesUnnoticed | src/event_logging.rs:488-542 | in every verifying store an event of actor "c" described as "ab" can become one of actor "bc" described as "a" |
| EventCoverage.ChangeKeepsTextIff | src/event_logging.rs:199-224 | changing any one of the twelve hashed fields keeps the hashed text exactly if the field's text stays |
| EventCoverage.ChangeIsNoticedIff | src/event_logging.rs:488-542 | in every verifying store such a change goes unnoticed exactly if it is none on the wire or the texts collide |
| EventCoverage.OneFieldDecides | src/event_logging.rs:199-224 | events that agree in all hashed fields but one have one text exactly if they agree in that one |
| EventLogging.IdentifiedKeeps | src/event_logging.rs:253-256 | storing fills in a missing id and keeps everything else |
| EventLogging.RetentionBreaksChain | src/event_logging.rs:330-348 | a verifying store of three events, the middle one older, that no longer verifies after retention |
| EventLogging.EventMismatchesAreExact | src/event_logging.rs:505-534 | reports are exactly the failing checks of the range, with index, id, expected and actual hash |
| EventLogging.NoEventMismatchIff | src/event_logging.rs:536-537 | no report exactly when the range is intact |
| EventLogging.EventLogger.constructor | src/event_logging.rs:159-165 | a new logger is empty |
| EventLogging.EventLogger.LogEvent | src/event_logging.rs:168-196 | an enabled, persisted, critical event enters the store, anything else leaves it untouched; an intact store stays intact |
| EventLogging.EventLogger.StoreEvent | src/event_logging.rs:245-270 | the contents become the newest ones with the event last, it is linked to the last hash, and an eviction makes the whole store verify |
| EventLogging.EventLogger.RebuildHashChain | src/event_logging.rs:235-242 | every hash and link is recomputed, oldest first |
| EventLogging.EventLogger.VerifyChain | src/event_logging.rs:488-542 | over the clamped range, integrity means every hash and every inner link holds; an empty store aborts |
| EventLogging.EventLogger.CleanupOldEvents | src/event_logging.rs:330-348 | exactly the events before the cutoff go, in order, and their number is returned; a clock below the retention period aborts |
| BountyLedger.ApplyKeepsMarketOk | src/bounty_marketplace.rs:326-884 | every successful call keeps the lifecycle: Timelocked or Active with an approval missing, Approved with both, Completed with none pending; ids and assignment lists consistent; balance not negative |
| BountyLedger.CreateKeepsMarketOk | src/bounty_marketplace.rs:326-409 | creation keeps it |
| BountyLedger.ApprovalKeepsMarketOk | src/bounty_marketplace.rs:564-639 | either approval keeps it |
| BountyLedger.StoredApprovalKeepsMarketOk | src/bounty_marketplace.rs:868-884 | storing an entry that takes no approval back keeps it |
| BountyLedger.AssignKeepsMarketOk | src/bounty_marketplace.rs:642-672 | assignment keeps it: the researcher's list then holds the bounty |
| BountyLedger.UnlockKeepsMarketOk | src/bounty_marketplace.rs:727-738 | the end of a timelock keeps it |
| BountyLedger.ClaimKeepsMarketOk | src/bounty_marketplace.rs:412-561 | a claim keeps it |
| BountyRuns.RunKeepsMarketOk | src/bounty_marketplace.rs:298-773 | it holds after every run from initialisation, failing calls rolled back |
| BountyRuns.RewardAtMostAmount | src/bounty_marketplace.rs:497-510 | a reward is the severity's share, cut down, and never more than the bounty's amount |
| BountyRuns.StepConserves | src/bounty_marketplace.rs:155-187 | a call moves balance and outstanding amounts by exactly its own flow |
| BountyRuns.RunConserves | src/bounty_marketplace.rs:155-187 | in every run, withdrawals included, the balance is deposits plus replenishments minus payouts and not negative |
| BountyRuns.SolventIff | src/bounty_marketplace.rs:675-724 | the balance covers all bounties not Completed exactly while withdrawals are covered by replenishments and unpaid shares |
| BountyRuns.PayableIff | src/bounty_marketplace.rs:155-175 | the amounts for which the percentage neither overflows nor rounds to an unpayable zero |
| BountyRuns.ClaimSucceedsIff | src/bounty_marketplace.rs:412-561 | in a solvent market a claim never lacks funds, and succeeds exactly for the assigned researcher of an Approved bounty of payable amount |
| BountyRuns.ReachableMarketIsSolvent | src/bounty_marketplace.rs:326-561 | without withdrawals every reachable market is solvent and no claim fails for lack of funds |
| BountyRuns.StepKeepsBounties | src/bounty_marketplace.rs:808-884 | a call never changes a bounty's terms; Completed is final and reached by its claim only, Approved by the second approval only, Active by its due timelock only; the researcher changes by its assignment only |
| BountyRuns.TimelockIsSevenDays | src/bounty_marketplace.rs:344-345 | in every run each bounty's timelock ends seven days after its creation |
| BountyRuns.ActiveOnlyAfterTimelock | src/bounty_marketplace.rs:727-738 | no call of a run makes a bounty Active earlier than that |
| BountyRuns.PaidAtMostOnce | src/bounty_marketplace.rs:412-561 | the number of successful claims of a bounty is one if it is Completed and zero otherwise |
| BountyRuns.ApprovalFlagsHaveCauses | src/bounty_marketplace.rs:564-639 | a recorded approval was given by an authorised call of that approver |
| BountyRuns.AssignmentHasCause | src/bounty_marketplace.rs:642-672 | an assigned researcher is the one named by the bounty's last successful assignment |
| BountyRuns.EveryClaimWasApproved | src/bounty_marketplace.rs:412-561 | a claim that succeeds was approved before by admin and owner, is made by the researcher last assigned, and pays the severity's share |
| BountyRuns.WithdrawalBreaksSolvency | src/bounty_marketplace.rs:675-724 | a run in which a withdrawal leaves an approved claim without funds |
| BountyAccess.AssignSucceedsIff | src/bounty_marketplace.rs:642-672 | an assignment succeeds exactly for an existing bounty created by the contract, or if the contract is the admin |
| BountyAccess.AssignedOnlyByContract | src/bounty_marketplace.rs:642-672 | in every run only such bounties ever have a researcher |
| BountyAccess.ClaimNeedsOwnContract | src/bounty_marketplace.rs:412-561 | in every run only such bounties are ever paid by a claim |
| BountyAccess.NobodyIsAssigned | src/bounty_marketplace.rs:642-672 | if the contract is not the admin and creates nothing, no bounty of any run has a researcher and no assignment succeeds |
| BountyAccess.NothingIsEverPaid | src/bounty_marketplace.rs:412-724 | then no claim and no withdrawal of any run succeeds, and nothing is paid |
| BountyAccess.CreatorIsRefused | src/bounty_marketplace.rs:647-654 | a run in which the creator of a bounty cannot have a researcher assigned |
| BountyAccess.ApprovalSucceedsIff | src/bounty_marketplace.rs:564-639 | in every market in order an approval succeeds exactly for its approver on a bounty not Completed that still lacks it, whatever the clock |
| BountyAccess.ClaimedWithinTimelock | src/bounty_marketplace.rs:412-639 | a run in which a bounty is created, approved and claimable all at time 0 |
| BountyWithdrawals.AvailableIsListedDue | src/bounty_marketplace.rs:689-711 | the loop adds up each listed bounty's reward as often as it is listed |
| BountyWithdrawals.MarketListsDue | src/bounty_marketplace.rs:642-672 | every bounty with something due is on its researcher's list |
| BountyWithdrawals.AvailableIsDueIff | src/bounty_marketplace.rs:675-724 | in every run what may be withdrawn is at least what the approved bounties are due, and exactly that if and only if none of these was assigned to the researcher twice |
| BountyWithdrawals.TwiceAssignedTakesTwice | src/bounty_marketplace.rs:642-724 | a run in which one call withdraws 200 for one approved bounty of 100 |
| BountyCalls.CreateSucceedsIff | src/bounty_marketplace.rs:326-409 | a creation succeeds exactly for an authorised creator, a positive amount in range and named texts, and stores just what it was told, locked for seven days |
| BountyCalls.ApprovalEffect | src/bounty_marketplace.rs:564-639 | an approval sets its one flag and time, and the status once both flags are set |
| BountyCalls.TimelockOpensIff | src/bounty_marketplace.rs:727-738 | exactly a due timelock opens, and a check that opens nothing changes nothing |
| BountyCalls.TimelockOpensAfterSevenDays | src/bounty_marketplace.rs:727-738 | in every run a locked bounty opens at a check exactly from seven days after its creation on |
| BountyCalls.ReplenishSucceedsIff | src/bounty_marketplace.rs:752-773 | only the admin replenishes, with a positive amount in range, and only the balance changes |
| BountyCalls.AssignEffect | src/bounty_marketplace.rs:642-672 | an assignment sets the one researcher and lists the bounty last with that researcher |
| BountyCalls.RewardShares | src/bounty_marketplace.rs:497-510 | the whole amount, sixty or thirty percent, by severity |
| BountyCalls.ClaimEffect | src/bounty_marketplace.rs:412-561 | a claim pays the reward, completes the one bounty and removes its approvals |
| BountyCalls.AvailableFitsIff | src/bounty_marketplace.rs:689-711 | the sum of rewards stays in range exactly if each reward and the whole sum do |
| BountyCalls.WithdrawSucceedsIff | src/bounty_marketplace.rs:675-724 | a withdrawal succeeds exactly if authorised, positive and covered by the balance and by what is listed as due, and takes just that amount |
| BountyCalls.WithdrawalsAreCovered | src/bounty_marketplace.rs:675-724 | in every run no successful withdrawal exceeds what was listed as due at that point |
| BountyContract.ByCreatorMembers | src/bounty_marketplace.rs:373-380 | a creator's list holds exactly the creator's bounties |
| BountyContract.GroupingCommutesWithChange | src/bounty_marketplace.rs:808-866 | changing one bounty in every list is grouping the changed ledger |
| BountyContract.ListHoldsIdIff | src/bounty_marketplace.rs:792-806 | a list holds an id exactly when that bounty's creator owns the list |
| BountyContract.ChangeKeepsGrouping | src/bounty_marketplace.rs:808-866 | rebuilding the one list that holds the id changes exactly that bounty and keeps every other list, length and order |
| BountyContract.AppendKeepsGrouping | src/bounty_marketplace.rs:373-380 | appending to the creator's list is appending to the ledger |
| BountyContract.ErrorStays | src/bounty_marketplace.rs:689-711 | once the sum of available rewards has failed it stays failed |
| BountyContract.BountyMarketplace.constructor | src/bounty_marketplace.rs:298-323 | the market starts empty |
| BountyContract.BountyMarketplace.GetBountyInternal | src/bounty_marketplace.rs:792-806 | the nested search finds the bounty of the id, in any map order, and nothing exactly if there is none |
| BountyContract.BountyMarketplace.FindInList | src/bounty_marketplace.rs:797-803 | the inner search finds a bounty of the id if the list has one |
| BountyContract.BountyMarketplace.RebuildList | src/bounty_marketplace.rs:814-826 | the rebuilt list differs at the id only, and `found` says whether it occurs |
| BountyContract.BountyMarketplace.UpdateBounty | src/bounty_marketplace.rs:808-866 | exactly one bounty of the ledger changes, and exactly if the id exists |
| BountyContract.BountyMarketplace.CreateBounty | src/bounty_marketplace.rs:326-409 | refines creation on the flat ledger: same failures, same new state, unused id |
| BountyContract.BountyMarketplace.StoreApproval | src/bounty_marketplace.rs:868-884 | the second approval makes the bounty Approved, the first only records itself |
| BountyContract.BountyMarketplace.AdminApprove | src/bounty_marketplace.rs:564-600 | refines the admin's approval |
| BountyContract.BountyMarketplace.OwnerApprove | src/bounty_marketplace.rs:603-639 | refines the owner's approval |
| BountyContract.BountyMarketplace.AssignResearcher | src/bounty_marketplace.rs:642-672 | refines assignment |
| BountyContract.BountyMarketplace.CheckTimelock | src/bounty_marketplace.rs:727-738 | refines the timelock check; true exactly if the state changed |
| BountyContract.BountyMarketplace.EmitPayoutReady | src/bounty_marketplace.rs:155-175 | money leaves only in positive amounts the balance covers |
| BountyContract.BountyMarketplace.ClaimReward | src/bounty_marketplace.rs:412-561 | refines the claim |
| BountyContract.BountyMarketplace.TotalAvailable | src/bounty_marketplace.rs:689-711 | the loop adds up the rewards of the listed bounties approved for the researcher |
| BountyContract.BountyMarketplace.Withdraw | src/bounty_marketplace.rs:675-724 | refines withdrawal |
| BountyContract.BountyMarketplace.ReplenishEscrow | src/bounty_marketplace.rs:752-773 | refines replenishment |
| ScanRegistry.MintKeepsOk | src/audit_proof_of_scan.rs:198-289 | minting keeps windows of one contract apart and the mapping at the highest id |
| ScanRegistry.DeactivationKeepsOk | src/audit_proof_of_scan.rs:299-367 | taking one certificate out of force keeps the registry in order |
| ScanRegistry.RevokeKeepsOk | src/audit_proof_of_scan.rs:299-367 | revocation keeps the registry in order |
| ScanRegistry.ExpireKeepsOk | src/audit_proof_of_scan.rs:605-612 | so would expiry, were it to persist |
| ScanRegistry.MappedSurvives | src/audit_proof_of_scan.rs:677-723 | a mapped certificate that is not stale survives the limit per contract |
| ScanRegistry.CleanupKeepsOk | src/audit_proof_of_scan.rs:655-733 | cleanup keeps the registry in order: the mapping never dangles and points to the highest stored id |
| ScanRegistry.KeptIdsOfContract | src/audit_proof_of_scan.rs:703-723 | of each contract the last ten ids are kept |
| ScanRegistry.AtMostTenKept | src/audit_proof_of_scan.rs:703-723 | at most ten certificates of a contract remain |
| ScanRegistry.CleanupLeaves | src/audit_proof_of_scan.rs:655-733 | cleanup leaves at most ten a contract, only Active ones with recent reports, and a contract loses its mapping only with the certificate |
| ScanRegistry.CleanupKeepsClearanceIff | src/audit_proof_of_scan.rs:655-733 | a contract is cleared after cleanup exactly if it was cleared before by a report not older than the cutoff |
| ScanRegistry.CleanupRemovesCertificateInForce | src/audit_proof_of_scan.rs:666-692 | a run in which cleanup removes a certificate in force |
| ScanRegistry.RunKeepsOk | src/audit_proof_of_scan.rs:157-733 | all of this holds after every run while the ledger clock does not run back |
| ScanRegistry.AtMostOneInForce | src/audit_proof_of_scan.rs:415-424 | in every reachable registry windows of one contract are disjoint and ordered by id, at most one certificate is in force, it is the mapped one, and clearance is exactly that |
| ScanRegistry.OkMeansOneInForce | src/audit_proof_of_scan.rs:415-424 | the same for any registry in order |
| ScanRegistry.RevocationIsPermanent | src/audit_proof_of_scan.rs:299-386 | after a revocation no sequence of calls makes the certificate verify again, removal from the revocation list included |
| ScanRegistry.ExpiryIsUndone | src/audit_proof_of_scan.rs:433-451 | the call writes exactly for a mapped certificate past its expiry, and always aborts when it has written |
| ScanRegistry.AnswersIffCleared | src/audit_proof_of_scan.rs:433-451 | it answers exactly for a cleared contract, and with the mapped certificate in force |
| ScanRegistry.NothingIsEverExpired | src/audit_proof_of_scan.rs:433-451 | no run stores a certificate as Expired, because the call that writes it aborts |
| ScanRegistry.RunKeepsListed | src/audit_proof_of_scan.rs:299-386 | in every run the revocation list names revoked certificates only |
| ScanRegistry.VerifiesIffActive | src/audit_proof_of_scan.rs:371-386 | in every reachable registry a certificate verifies exactly if it is stored and Active, and this differs from being in force exactly if it is Active and past its expiry |
| ScanRegistry.ExpiredCertificateVerifies | src/audit_proof_of_scan.rs:371-386 | a run whose certificate verifies after it ran out |
| RegistryCalls.AcceptedCids | src/audit_proof_of_scan.rs:766-777 | a content id is accepted exactly with ten characters and one of the two beginnings |
| RegistryCalls.MintSucceedsIff | src/audit_proof_of_scan.rs:198-289 | minting succeeds exactly for the scanner, a proper address, an accepted content id, Low or Medium risk, no certificate in force, and 1 to 365 days |
| RegistryCalls.MintEffect | src/audit_proof_of_scan.rs:198-289 | one Active certificate under the next id, valid from now for the named days, becomes the contract's; nothing else changes |
| RegistryCalls.ClearedForNamedDays | src/audit_proof_of_scan.rs:415-424 | a minted contract is cleared through the last second of the named days and no longer |
| RegistryCalls.RevokeSucceedsIff | src/audit_proof_of_scan.rs:299-367 | admin or scanner revoke any stored certificate not yet Revoked; that certificate and its record are all that changes |
| RegistryCalls.AdministrationSucceedsIff | src/audit_proof_of_scan.rs:523-652 | only the admin removes records and names a new scanner or admin, none of them the default address |
| RegistryCalls.CleanupKeepsIff | src/audit_proof_of_scan.rs:655-733 | cleanup keeps a certificate exactly if it is Active with a report of the last ninety days and fewer than ten such ones of its contract are newer |
| RegistryCalls.EveryCertificateWasMinted | src/audit_proof_of_scan.rs:198-733 | in every run each stored certificate stems from a successful minting by the scanner of the time, for a Low or Medium risk, with the call's time and days |
| ProofOfScan.AuditProofOfScan.constructor | src/audit_proof_of_scan.rs:157-187 | the registry starts empty and in order |
| ProofOfScan.AuditProofOfScan.MintCertificate | src/audit_proof_of_scan.rs:198-289 | refines minting: same failures in the same order, same new state, unused id |
| ProofOfScan.AuditProofOfScan.RevokeCertificate | src/audit_proof_of_scan.rs:299-367 | refines revocation, the admin before the scanner as revoker |
| ProofOfScan.AuditProofOfScan.VerifyCertificateNotRevoked | src/audit_proof_of_scan.rs:371-386 | true exactly for a stored certificate that is neither Revoked nor listed |
| ProofOfScan.AuditProofOfScan.IsContractCleared | src/audit_proof_of_scan.rs:415-424 | answers clearance as specified |
| ProofOfScan.AuditProofOfScan.ExpireCertificate | src/audit_proof_of_scan.rs:605-612 | changes the one status and keeps the registry in order |
| ProofOfScan.AuditProofOfScan.ReadOrExpire | src/audit_proof_of_scan.rs:433-451 | the body of the call: what it has written when it ends, and its answer |
| ProofOfScan.AuditProofOfScan.GetContractCertificate | src/audit_proof_of_scan.rs:433-451 | answers exactly for a cleared contract, with its certificate in force, and leaves the registry as it was |
| ProofOfScan.AuditProofOfScan.RemoveFromCrl | src/audit_proof_of_scan.rs:643-652 | the admin alone removes exactly the named record |
| ProofOfScan.AuditProofOfScan.CleanupCertificates | src/audit_proof_of_scan.rs:655-733 | both phases together leave exactly the specified certificates and mapping, and the number returned is the number removed |
| ProofOfScan.AuditProofOfScan.RemoveStale | src/audit_proof_of_scan.rs:666-692 | the first phase removes exactly the stale certificates and the mappings that point to them |
| ProofOfScan.AuditProofOfScan.RemoveEach | src/audit_proof_of_scan.rs:678-692 | the removal loop takes out exactly the listed certificates, and exactly the mappings that pointed to them |
| ProofOfScan.AuditProofOfScan.CountPerContract | src/audit_proof_of_scan.rs:694-700 | the counting loop counts each contract's certificates |
| ProofOfScan.AuditProofOfScan.TrimContract | src/audit_proof_of_scan.rs:704-722 | trimming one contract leaves its newest ten and no other contract touched |
| ProofOfScan.AuditProofOfScan.RemoveExcess | src/audit_proof_of_scan.rs:694-723 | the second phase leaves the newest ten of every contract, in any map order |
| ProofOfScan.AuditProofOfScan.RemoveFirst | src/audit_proof_of_scan.rs:717-721 | removal of the oldest ids one by one removes exactly those |
| BatchOperations.StatusMeansExistence | src/batch_operations.rs:262-268 | Completed, Failed and PartiallyCompleted mean that all, none or some of the requested items exist |
| BatchOperations.NewestIsUnique | src/batch_operations.rs:582-596 | which summaries are the newest is determined |
| BatchOperations.KeptIffFewNewer | src/batch_operations.rs:582-596 | a summary is dropped as excess exactly when a thousand newer ones exist, whatever its status |
| BatchOperations.CleanupKeepsIff | src/batch_operations.rs:557-598 | cleanup keeps a summary exactly if it is of the last thirty days and fewer than a thousand such ones are newer, by time and then id |
| BatchOperations.FiguresAddUp | src/batch_operations.rs:228-255 | successes and gas of a batch are the sums over its items |
| BatchOperations.DropOldest | src/batch_operations.rs:582-596 | removing the head of the ids sorted by time leaves the newest |
| BatchOperations.CreatedBatchIsFresh | src/batch_operations.rs:116-160 | the next id is unused by both kinds |
| BatchOperations.SummaryStored | src/batch_operations.rs:270-279 | storing an accounted summary keeps all tables in order |
| BatchOperations.CleanupKeepsTables | src/batch_operations.rs:557-646 | dropping summaries and expired requests keeps all tables in order |
| BatchOperations.BatchGasInRange | src/batch_operations.rs:222-255 | the gas sum of a batch of 32-bit ledger-sequence differences never leaves 64 bits |
| BatchOperations.CompletedBatchRunsAgain | src/batch_operations.rs:172-646 | a run in which a Completed batch, its summary pushed out by a thousand newer ones, executes anew and fails |
| BatchOperations.BatchContract.constructor | src/batch_operations.rs:79-100 | empty tables, counter zero |
| BatchOperations.BatchContract.CreateBatch | src/batch_operations.rs:103-169 | succeeds exactly for 1 to 100 authorised items, stores request and pending summary under an unused id, and a failure changes nothing |
| BatchOperations.BatchContract.StoreNew | src/batch_operations.rs:116-160 | the writes of a creation |
| BatchOperations.BatchContract.ProcessItems | src/batch_operations.rs:222-255 | one result an item in request order, success exactly for existing items, successes and failures add up, gas is the sum |
| BatchOperations.BatchContract.ExecuteBatch | src/batch_operations.rs:172-288 | an executed batch is fully accounted for; a Completed one answers its stored summary; failures change nothing |
| BatchOperations.BatchContract.CleanupOldBatches | src/batch_operations.rs:557-646 | leaves the newest thousand of the summaries not past the cutoff, drops expired requests, and returns the number of summaries removed |
| BatchOperations.BatchContract.DropExpired | src/batch_operations.rs:571-580 | removes exactly what is past the cutoff |
| BatchOperations.BatchContract.DropExcess | src/batch_operations.rs:582-596 | leaves the newest thousand |
| BatchOperations.BatchContract.RemoveAll | src/batch_operations.rs:577-580 | removal one by one removes exactly the listed summaries |
| GasLimits.VariableGasMonotone | src/gas_limits.rs:262-271 | raising parameters never lowers the cost, and at the caps it no longer grows |
| GasLimits.GasLimitManager.constructor | src/gas_limits.rs:137-246 | the three default profiles |
| GasLimits.GasLimitManager.EstimateGas | src/gas_limits.rs:249-314 | cost in unbounded arithmetic, limit with margin capped by the complexity's limit, and an overflow exactly when a figure leaves the range |
| GasLimits.MarginMeansHighRisk | src/gas_limits.rs:732-799 | the ten percent margin is a tenth cut down, and a batch's own limit always reads as High risk |
| GasLimits.SplitAdviceBound | src/gas_limits.rs:752-766 | if an item fits a split, the advised splits are the least number that covers the batch, and gas per split is below threshold plus items per split |
| GasLimits.SplitsAreSound | src/gas_limits.rs:752-766 | for every batch, also when nothing fits |
| GasLimits.AdviceCoversIff | src/gas_limits.rs:752-766 | the advised splits have room for the batch exactly if at least one item fits into a split |
| GasLimits.AdviceMayNotCover | src/gas_limits.rs:752-766 | a batch of two whose advice is a single split that holds none |
| GasLimits.OneSplitIff | src/gas_limits.rs:752-766 | the advice is one split exactly if the average says that all items fit into one |
| GasLimits.MarginAloneSplitsNothing | src/gas_limits.rs:732-766 | a batch whose total is within the threshold is advised not to split, though with its margin it exceeds it |
| GasLimits.ExceedingBatchIsNotSplit | src/gas_limits.rs:732-766 | 1300 releases under the default limits exceed the threshold and are advised one split |
| GasLimits.RiskBands | src/gas_limits.rs:432-441 | the risk follows the usage in percent: 60, 80 and 95 |
| GasLimits.ZeroLimitRisk | src/gas_limits.rs:432-441 | a limit of zero is critical for any gas, and Low for none |
| GasLimits.PercentMeans | src/gas_limits.rs:281-282 | a percentage is cut down to whole gas, and a cast saturates at both ends |
| GasLimits.DefaultCosts | src/gas_limits.rs:148-271 | the costs of the three default operations for all parameters, capped units included |
| GasLimits.ItemCosts | src/gas_limits.rs:608-661 | a release costs 65,000 and a verification 78,000 gas under the default profiles |
| GasLimits.BatchTotalOfItems | src/gas_limits.rs:715-730 | items and overheads add up to the closed form of the total |
| GasLimits.MixedBatchSavesOneOverhead | src/gas_limits.rs:664-730 | for all counts a mixed batch costs one dispatch overhead less than the two single-kind batches |
| GasLimits.BatchGasEstimator.constructor | src/gas_limits.rs:594-605 | the given limit and threshold with a manager of default profiles |
| GasLimits.BatchGasEstimator.EstimateItems | src/gas_limits.rs:671-709 | one estimate an item, indexed consecutively, or an overflow exactly when the margin of one item leaves the range |
| GasLimits.BatchGasEstimator.EstimateEscrowReleaseBatch | src/gas_limits.rs:608-632 | a full, consistent estimate with its closed-form total, or a failure exactly when a figure leaves the range |
| GasLimits.BatchGasEstimator.EstimateVerificationBatch | src/gas_limits.rs:635-661 | likewise for verifications |
| GasLimits.BatchGasEstimator.EstimateMixedBatch | src/gas_limits.rs:664-712 | likewise for a mixed batch, releases first |
| GasLimits.BatchGasEstimator.SumItems | src/gas_limits.rs:728 | the sum, or an overflow exactly when it leaves the range |
| GasLimits.BatchGasEstimator.AdviseSplits | src/gas_limits.rs:752-766 | sound advice, or an abort exactly when the rounding term leaves the range |
| GasLimits.BatchGasEstimator.BuildBatchEstimate | src/gas_limits.rs:715-788 | total, margin, threshold test, risk and split advice fit together; fails exactly when a figure leaves the range |
| AddressFilters.MergedMeans | src/address_filter.rs:1062-1092 | of several fetched entries for an unlisted address the first counts; listed addresses keep their entry |
| AddressFilters.MergeIgnoresValidity | src/address_filter.rs:1062-1092 | which addresses a merge lists depends on the fetched addresses only, expired and inactive entries included |
| AddressFilters.FetchedIff | src/address_filter.rs:998-1060 | the fetched addresses are exactly those a feed was asked for and answered with, by its first configuration; unconfigured feeds are asked for 5000 malicious ones only |
| AddressFilters.FeedFailsIff | src/address_filter.rs:998-1060 | a feed fails exactly if an answer it is asked for is an error |
| AddressFilters.RefreshLaws | src/address_filter.rs:1062-1092 | a refresh loses no address, puts none on both lists, and repeating it changes nothing |
| AddressFilters.CountsAreExact | src/address_filter.rs:1094-1106 | every named feed's count is the number of entries it is the source of |
| AddressFilters.AddressFilter.constructor | src/address_filter.rs:698-708 | empty lists |
| AddressFilters.AddressFilter.AddToWhitelist | src/address_filter.rs:711-718 | exactly valid entries are listed; entry keys stay the union of the lists |
| AddressFilters.AddressFilter.AddToBlacklist | src/address_filter.rs:721-728 | likewise |
| AddressFilters.AddressFilter.RemoveAddress | src/address_filter.rs:731-737 | the address leaves both lists and the table; true exactly if it had an entry |
| AddressFilters.AddressFilter.FilterAddress | src/address_filter.rs:762-806 | blacklist before whitelist before the first matching pattern before the default, whatever the entries say |
| AddressFilters.AddressFilter.ExpiredEntryStillBlocks | src/address_filter.rs:721-773 | an entry listed while valid blocks its address at any later time, though then it could no longer be added |
| AddressFilters.AddressFilter.TakeAnswer | src/address_filter.rs:1019-1055 | one fetch yields its entries, or the message of its failure |
| AddressFilters.AddressFilter.CollectFromFeeds | src/address_filter.rs:994-1060 | all answers and all error messages in feed order; a feed counts as failed once, whichever of its answers fails |
| AddressFilters.AddressFilter.MergeMalicious | src/address_filter.rs:1062-1076 | new blacklist is the old one and the fetched addresses not whitelisted; every entry is added or skipped |
| AddressFilters.AddressFilter.MergeTrusted | src/address_filter.rs:1078-1092 | new whitelist is the old one and the fetched addresses not blacklisted; every entry is added or skipped |
| AddressFilters.AddressFilter.UpdateFeedCounts | src/address_filter.rs:1094-1106 | the count of each named feed is refreshed |
| AddressFilters.AddressFilter.CountSourcedBy | src/address_filter.rs:1100-1104 | walking the entries in any order counts exactly those whose source begins with the feed's name |
| AddressFilters.AddressFilter.RefreshFromFeeds | src/address_filter.rs:979-1109 | an address is on the new blacklist exactly if it was, or was not whitelisted and some feed asked for malicious addresses answered with it; the dual for trusted; fetched equals added plus skipped, and the errors are those of all failed fetches |
| AddressFilters.AddressFilter.RefreshTwice | src/address_filter.rs:979-1109 | a second refresh with unchanged feeds adds nothing and skips everything |
| ScanAccess.EventEffect | src/scan_access_control.rs:442-592 | what one successful share, revocation or log entry does to list, expiry and log |
| ScanAccess.LastWordStep | src/scan_access_control.rs:442-545 | a user's last word changes with the user's own share or revocation only |
| ScanAccess.HistoryDeterminesRecord | src/scan_access_control.rs:442-592 | after any history the list holds exactly the users whose last word is a share, without duplicates and within the cap; the expiry is the latest share's; the log is the newest entries |
| ScanAccess.AccessAgreesWithHistory | src/scan_access_control.rs:262-314 | a researcher, developer or plain user other than the owner may access a private scan exactly if the last word is a share and the latest share's expiry has not passed |
| ScanAccess.AlwaysAllowed | src/scan_access_control.rs:262-314 | after any history the owner, admins and auditors may access a scan, and anyone a public one |
| ScanAccess.ShareSucceedsIff | src/scan_access_control.rs:442-513 | only the owner shares, with anyone else, and only below the recipient limit |
| ScanAccess.RenewalFailsIffFull | src/scan_access_control.rs:470-495 | after any history the owner fails to renew a listed user's share exactly if the list is full |
| ScanAccess.EveryShareExpires | src/scan_access_control.rs:481-486 | every share expires within the configured maximum; with no expiry named anywhere after 720 hours or that maximum |
| ScanAccess.ShareEffect | src/scan_access_control.rs:442-513 | a share lists the user once and runs the hours asked for, else the configured default, else 720, up to the maximum |
| ScanAccess.RevokeSucceedsIff | src/scan_access_control.rs:516-545 | only the owner revokes; the user leaves the list and nothing else of it changes |
| ScanAccess.FullListCannotRenew | src/scan_access_control.rs:470-495 | a history with a limit of one in which a share cannot be renewed and runs out |
| ScanAccess.ScanAccessControl.constructor | src/scan_access_control.rs:242-247 | no scans |
| ScanAccess.ScanAccessControl.RegisterScan | src/scan_access_control.rs:349-381 | a private, unshared record under the new id |
| ScanAccess.ScanAccessControl.IsScanSharedWith | src/scan_access_control.rs:628-639 | listed and not expired |
| ScanAccess.ScanAccessControl.VerifyScanAccess | src/scan_access_control.rs:262-314 | granted exactly to owner, privileged role, recipient in time or on a public scan; everything if enforcement is off |
| ScanAccess.ScanAccessControl.ShareScan | src/scan_access_control.rs:442-513 | refines the share of one record; other records and failing calls change nothing |
| ScanAccess.ScanAccessControl.RevokeShare | src/scan_access_control.rs:516-545 | refines the revocation likewise |
| ScanAccess.ScanAccessControl.LogAccess | src/scan_access_control.rs:551-592 | the newest entries are kept; an unknown scan is ignored |
| StableSort.SortByIsStable | src/audit_trail.rs:565 | the sort used by queries, alerts and both cleanups is a stable sort and a permutation |
| StableSort.FilterCommutesWithSort | src/audit_trail.rs:558-565 | filtering before or after the stable sort gives the same |
| StableSort.StableSortIsUnique | src/audit_trail.rs:565 | a stable sort of given input is determined |

## Left out

- Reading and writing manifests, hashing files, extracting dependencies from text (`src/incremental_scan.rs:81-125`, `src/incremental_scan.rs:314-436`): input and regular expressions; dependency lists are given.
- IncrementalScan.ScanManifest.ComputeAffectedFiles: estimates the full scan's duration in exact arithmetic, where the code uses `f64`.
- IncrementalRuns.IncrementalEqualsFullScan: is for runs without deletions, because the planner treats neither a deletion nor a restoration as a change; `IncrementalDeletions.RecordHoldsIff` gives the exact condition for all runs.
- AuditChain.LastHashCommitsToHistory: speaks of the concatenated body, because the code joins the fields without separators (`AuditTampering.TextMovesBetweenFields`); and allows a collision, because no function of unbounded texts to 64 characters is injective. `AuditTampering.LastHashAgreesIff` is the exact condition.
- Wrap-around in a build without overflow checks: overflow aborts here.
- Locks and their poisoning, structured log lines, exports to CSV and JSON, archival lists, statistics: each method is one atomic step.
- `verify_full_chain` (`src/event_logging.rs:545-560`): takes its lock twice; the range verification it delegates to is modelled.
- Bounty nonces, contract events, and calls before `initialize`: the market starts initialised.
- The fields of a security report other than contract, timestamp, risk and content id; certificate history, statistics and the always failing transfer: easy readers.
- BatchOperations.BatchContract.CreateBatch: models both kinds by one method with the kind as parameter, as the two bodies differ in names only; likewise `ExecuteBatch`.
- BatchOperations.BatchContract.ExecuteBatch: takes the existing items and the gas of each as parameters, and has no overflow failure: the ledger sequence is 32 bits wide and does not run back within a call, so neither the differences nor their sum (`BatchGasInRange`) leave the range.
- GasLimits.GasLimitManager.EstimateGas: takes percentages as exact rationals where the code uses `f64`, so results may differ by rounding for very large amounts; optimisation hints and recommendations are texts.
- GasLimits.BatchGasEstimator.BuildBatchEstimate: does not carry the warning text.
- AddressFilters.AddressFilter.RefreshTwice: two calls in a row, a statement the repository has no function for.
- Address formats, tags, metadata, file import and export, the background refresh thread; regular expressions are arbitrary predicates on addresses.
- Scan status, severity summaries, modification checks and listings of `src/scan_access_control.rs`: easy readers and setters; times are whole seconds.
- Hash-map iteration order: loops over hash sets and maps take any element next, so what is proved holds for every order. Storage maps of the contracts are walked in ascending key order where ties depend on it.
- Small flag latches, thread plumbing, scoring and the user interface of the rest of the repository.
