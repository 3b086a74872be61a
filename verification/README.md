# daygle-dns: a Dafny model of its protocols and stores

daygle-dns is a DNS server with a management API and a web console. This project
models the parts of it that work over time or across several functions, and proves
what they are for. `dafny verify dfyconfig.toml` checks all of it.

Code that updates state is a class or a method with loops, proved against a
specification function or predicate; code that only computes is a function. What is
shared between threads, or can be cut off by a crash, is a state machine over its
steps, and its theorems are about every run.

| module | what it models |
|---|---|
| `Text`, `Addresses`, `Clock` | splitting, joining, case, order and numbers in text; IP addresses; time passed |
| `LoginThrottle`, `LoginProtocol` | the bounded table of failed sign-ins; concurrent `auth_login` attempts around it |
| `KeyRollover`, `KeyHistory` | a DNSSEC rollover pass, key by key; histories of passes, reloads and answers |
| `Restore` | staging and applying a restore, with a crash after any rename |
| `SerialReports` | serial changes noted by reloads and taken by the NOTIFY sender, interleaved |
| `Health`, `Failover`, `WeightedAnswers` | probe counters, what is served of an RRset, the weighted choice among it |
| `TransferCodec`, `SecondaryZone` | the stored form of a transfer; serving and handing on a secondary zone from it |
| `LogExport` | the query exporter: producers, a bounded queue, one worker |
| `QueryLogBound` | time bounds compared as strings with stored timestamps |
| `Accounts` | DNS accounts and the group entries that name them |
| `ReverseNames`, `ReverseZones`, `ReverseZoneText` | reverse names and zones in the server and in the console |
| `AutoPtr`, `PtrSync` | made-up PTR answers; PTR records kept in step with address records |
| `MemberStore`, `CatalogPublish`, `CatalogSerial`, `CatalogConsumer`, `CatalogRuns`, `CatalogRoundTrip` | catalog zones: published, given a serial, read, followed, over time, end to end |

## Where the code and what is said of it differ

Each is a counterexample or an exact condition, proved as a lemma.

- A catalog's member names are read through `to_string`, which prints `xn--` labels in
  Unicode: a published zone with such a label is read under another name, which the
  store refuses, and one refused name fails the whole reconciliation
  (`CatalogPublish.ConsumerUndoesPublisher`, `CatalogPublish.PunycodeNameIsMisread`,
  `CatalogConsumer.CatalogFollower.Reconcile`).
- A refresh that finds a catalog's serial unchanged says in a comment that it serves a
  member deleted by hand again. It does not, until the serial changes
  (`CatalogRuns.UnchangedCheckRestoresNothing`, `CatalogRuns.HandDeletedStaysAway`).
- A rollover pass that ends before its reload (an error on a later zone) leaves the
  served catalog signing with a key the store has retired; signatures handed out then
  can outlive their DNSKEY (`KeyHistory.HandedExactly`, `KeyHistory.UnreloadedPassLeavesStaleSigner`).
- A reload that fails after it stored the catalog serves serials no take reports until
  another reload completes (`SerialReports.ServedAsRecordedExactly`).
- After a crash between the renames of a restore, journals are set aside under another
  second than their database (`Restore.JournalFollowsDatabase`, `Restore.CrashSeparatesJournal`);
  and a start-up whose renames fail part-way runs on, perhaps with a new database beside
  an old journal (`Restore.StrandedJournal`).
- A secondary hands on less than its master sent exactly when records of the transfer
  clash, such as one owner's same data under two TTLs (`SecondaryZone.StoreAndHandOn`,
  `SecondaryZone.TwoTtlsClash`).
- A catalog checked early in a round leaves a name alone that another catalog's zone has;
  if that zone goes later in the round, the name has no zone until the first catalog's
  serial changes (`CatalogRuns.RoundLeavesReconciled`, `CatalogRuns.ClashFreedTooLate`).
- `account: bob` names bob to the filtering engine but a rename or deletion of bob misses
  it; entries saved through the console never have that form (`Accounts.MatchesExactly`).
- A rename between the check of a group's clients and its write leaves an entry that names
  no account (`Accounts.RunResolvesExactly`, `Accounts.RenamedInBetween`).
- A query-log bound whose year in UTC is past 9999 sorts before everything
  (`QueryLogBound.BoundsAgreeExactly`).
- `+5.0.0.10.in-addr.arpa` is read as 10.0.0.5 (`ReverseNames.WritesWhatIsRead`).

## Model

| member | source | states |
|---|---|---|
| `LoginThrottle.Throttle.RetryAfter` | crates/daygle-dns-api/src/lib.rs:384-391 | a wait is given exactly for an address with ten failures in a window opened less than five minutes ago, and it is the whole seconds left of the window, at least 1 |
| `LoginThrottle.Throttle.MakeRoom` | crates/daygle-dns-api/src/lib.rs:393-409 | when a new address finds the table full, lapsed windows go and, if that is not enough, the oldest one; the failure about to be counted then fits |
| `LoginThrottle.Throttle.RecordFailure` | crates/daygle-dns-api/src/lib.rs:393-417 | the recent window of the address gains one (or opens now), every other recent window is as it was, but for the oldest one, given up only when 10000 are tracked |
| `LoginThrottle.Throttle.Clear` | crates/daygle-dns-api/src/lib.rs:419-422 | exactly the one address is forgotten |
| `LoginThrottle.ExpiredIsAbsent` | crates/daygle-dns-api/src/lib.rs:376-422 | an expired entry behaves exactly like an absent one, now and later |
| `LoginProtocol.StepKeepsInv` | crates/daygle-dns-api/src/handlers.rs:4106-4200 | every step of every attempt keeps: live count plus attempts past the recheck within the burst, at most four permits out, the table within its bound and in agreement with the log of failures |
| `LoginProtocol.BurstBound` | crates/daygle-dns-api/src/handlers.rs:4106-4200 | in every interleaving of any number of attempts one address never has more than 13 failures counted in one window |
| `LoginProtocol.OutcomeCounted` | crates/daygle-dns-api/src/handlers.rs:4106-4200 | a success leaves its address with no failure counted and no other address changed; a failure adds one to its address; without an address nothing is counted |
| `LoginProtocol.ChecksHold` | crates/daygle-dns-api/src/handlers.rs:4106-4200 | with ten failures of an address counted no attempt from it gets past either check |
| `LoginProtocol.PhasesInOrder` | crates/daygle-dns-api/src/handlers.rs:4106-4200 | an attempt is queued, rechecked, verified and settled in this order, each by its own step, and takes a permit only while fewer than four are out |
| `LoginProtocol.OutcomesPossible` | crates/daygle-dns-api/src/handlers.rs:4106-4200 | a verified attempt can succeed, and one without an address fail; either way it is settled |
| `LoginProtocol.RollingBound` | crates/daygle-dns-api/src/handlers.rs:4106-4200 | while an address keeps its entry, its count is exactly the logged failures of its window, and no stretch of one window length placed anywhere holds more than 25 |
| `LoginProtocol.BurstAttained` | crates/daygle-dns-api/src/handlers.rs:57-72 | 13 is reached by a run, so the bound is exact |
| `LoginProtocol.RollingAttained` | crates/daygle-dns-api/src/handlers.rs:4106-4200 | 25 in one stretch is reached by a run |
| `KeyRollover.AgeReached` | crates/daygle-dns-authoritative/src/dnssec.rs:305-322 | a whole-second age reaches a threshold exactly when that much time has passed |
| `KeyRollover.RetireSuperseded` | crates/daygle-dns-authoritative/src/dnssec.rs:207-296 | the loop that retires superseded keys leaves the list with exactly the superseded active keys stamped retired now |
| `KeyRollover.DeleteExpired` | crates/daygle-dns-authoritative/src/dnssec.rs:207-296 | the loop that deletes keys removes exactly the keys retired long enough and keeps the others in order |
| `KeyRollover.AdvanceZone` | crates/daygle-dns-authoritative/src/dnssec.rs:211-296 | one zone, key by key: what the store holds afterwards and how many events were counted, as a function of the list read at the start |
| `KeyRollover.KeyStore.ProcessRollover` | crates/daygle-dns-authoritative/src/dnssec.rs:207-302 | each primary zone takes one step of its own, other zones keep their keys, ids stay unique, and `changed` says whether the keys of any zone changed |
| `KeyRollover.PassChanges` | crates/daygle-dns-authoritative/src/dnssec.rs:211-296 | a pass counts an event if and only if it changes the zone's keys |
| `KeyRollover.PassKeepsIds` | crates/daygle-dns-authoritative/src/dnssec.rs:207-302 | a pass over any key set with distinct ids leaves distinct ids |
| `KeyRollover.PassKeepsAnActiveKey` | crates/daygle-dns-authoritative/src/dnssec.rs:211-296 | no pass on any key set takes away the last active key |
| `KeyRollover.NoActiveKey` | crates/daygle-dns-authoritative/src/dnssec.rs:211-296 | a zone without an active key is left alone |
| `KeyHistory.PassKeepsShape` | crates/daygle-dns-authoritative/src/dnssec.rs:211-296 | from one active, two active, or one active and one retired key, a pass leads to one of these and causes at most one event |
| `KeyHistory.ReachableShape` | crates/daygle-dns-authoritative/src/dnssec.rs:211-296 | every reachable zone is in one of the three states |
| `KeyHistory.HistoryIsComplete` | crates/daygle-dns-authoritative/src/dnssec.rs:207-302 | a reload, on its own or after a pass that changed the keys, serves every stored DNSKEY and signs with every active key; an answer hands out the served signatures; a pass without its reload changes nothing that is served; and nothing is lost from the history |
| `KeyHistory.MadeSignaturesVerify` | crates/daygle-dns-authoritative/src/catalog.rs:857-903 | a signature made at any time can be checked against a served DNSKEY until `retire` after it, in every run (section 4.1.1 of RFC 6781) |
| `KeyHistory.HandedSignaturesVerify` | crates/daygle-dns-authoritative/src/catalog.rs:999-1007 | with every pass followed by its reload, so can a signature handed to a resolver at any time |
| `KeyHistory.RetiredOnlyAfterOverlap` | crates/daygle-dns-authoritative/src/dnssec.rs:211-296 | in every run a key is retired only by a pass that finds another active key, created at least `overlap` before, which stays as it is |
| `KeyHistory.RetiredOnlyWithSuccessor` | crates/daygle-dns-authoritative/src/dnssec.rs:211-296 | when every pass is followed by its reload, a key is retired only while another active key signs the served zone and its DNSKEY has been served without a break for at least `overlap` |
| `KeyHistory.DeletedOnlyAfterRetirement` | crates/daygle-dns-authoritative/src/dnssec.rs:270-296 | a key leaves the store only as a retired one, at least `retire` after its retirement |
| `KeyHistory.HandedExactly` | crates/daygle-dns-authoritative/src/catalog.rs:857-903 | a signature handed out now stays verifiable whatever follows if and only if its key still signs in the store and its DNSKEY is served |
| `KeyHistory.UnreloadedPassLeavesStaleSigner` | crates/daygle-dns-authoritative/src/dnssec.rs:296-302 | for every configuration with rollover on that is let through (each threshold at least a day), a run in which two passes `overlap` apart end before their reload, and a signature handed out then becomes unverifiable too soon |
| `KeyHistory.RolloverCompletes` | crates/daygle-dns-authoritative/src/dnssec.rs:211-296 | a started rollover is back to the new key alone after one pass `overlap` later and another `retire` after that, whatever passes come between |
| `Restore.Disk.StageRestore` | crates/daygle-dns-authoritative/src/backup.rs:240-249 | staging leaves the whole checked backup at the staged path; at no moment is a part of it there |
| `Restore.Disk.CancelRestore` | crates/daygle-dns-authoritative/src/backup.rs:260-267 | the staged file goes, and says whether it was there |
| `Restore.Disk.ApplyPendingRestore` | crates/daygle-dns-authoritative/src/backup.rs:272-295 | with nothing staged no file changes; a staged file that fails its check is only renamed; otherwise it is the database, the old database and its journals are set aside under this second, and every other file is as it was; and the states in between, one per rename |
| `Restore.StartUpCutOff` | crates/daygle-dns-authoritative/src/backup.rs:272-295 | wherever a start-up is cut off, the database content is at the database path or set aside, and all earlier set-aside files are as they were |
| `Restore.RestoreArrivesClean` | crates/daygle-dns-authoritative/src/backup.rs:272-295 | the staged file reaches the database path only in the last step, with no old -wal, -shm or -journal beside it |
| `Restore.StagedIsComplete` | crates/daygle-dns-authoritative/src/backup.rs:240-249 | in every run with crashes anywhere the staged path only ever holds a whole checked backup |
| `Restore.StepWrites` | crates/daygle-dns-authoritative/src/backup.rs:241-295 | which files each step of a running server changes, and how |
| `Restore.StagedArrives` | crates/daygle-dns-authoritative/src/backup.rs:241-295 | in every run a staged backup is the database after the first start-up that finds it good and runs to its end |
| `Restore.CancelledStaysAway` | crates/daygle-dns-authoritative/src/backup.rs:263-295 | in every run start-ups after a cancelled restore, with none staged since, change no file |
| `Restore.SetAsideForEver` | crates/daygle-dns-authoritative/src/backup.rs:272-295 | in every run, what was set aside stays at its path with its content |
| `Restore.OldDatabaseSurvives` | crates/daygle-dns-authoritative/src/backup.rs:272-295 | in every run with start-ups in distinct seconds, the database content survives at the database path or a before-restore path |
| `Restore.RestoredDatabaseIsClean` | crates/daygle-dns-authoritative/src/backup.rs:272-295 | in every run, a start-up takes the staged file away if and only if it gets through all its steps, and then the backup is the database with no old journal beside it; otherwise, also when the server runs on, the backup stays staged |
| `Restore.StrandedJournal` | crates/daygle-dns/src/lib.rs:252-263 | a start-up that fails part-way leaves an old journal without its database, where a server that runs on creates a new one, exactly between the two renames |
| `Restore.JournalFollowsDatabase` | crates/daygle-dns-authoritative/src/backup.rs:280-290 | a journal is set aside under the same second as its database if and only if the database was still in place when this start-up began |
| `Restore.CrashSeparatesJournal` | crates/daygle-dns-authoritative/src/backup.rs:280-290 | a crash after the database was moved puts its journal under another second |
| `Restore.AsidesKeptExactly` | crates/daygle-dns-authoritative/src/backup.rs:272-295 | a start-up overwrites no set-aside file if and only if nothing that it moves has a namesake under that second |
| `SerialReports.Reports.Reload` | crates/daygle-dns-authoritative/src/catalog.rs:484-522 | the built catalog is served; if the rest works the serials become the built ones, exactly the zones that were absent or had another serial are added to those to report, and a wake-up is sent if there is one; if it fails the bookkeeping stays |
| `SerialReports.Reports.TakeChangedZones` | crates/daygle-dns-authoritative/src/catalog.rs:328-333 | the zones to report are handed over and forgotten |
| `SerialReports.TakeReportsChanges` | crates/daygle-dns-authoritative/src/catalog.rs:484-522 | in every interleaving a take holds every zone of the last reload completed before it that was absent or had another serial in the last one completed before the previous take, and nothing no reload in between saw absent or unequal before |
| `SerialReports.SecondTakeReports` | crates/daygle-dns-authoritative/src/catalog.rs:484-522 | of two takes with none in between the later one holds every zone whose serial in the bookkeeping was absent or another at the earlier one |
| `SerialReports.NoLostWakeUp` | crates/daygle-dns/src/lib.rs:467-485 | whenever zones are waiting to be reported, a wake-up is pending, being handled, or about to be sent |
| `SerialReports.TakesAreAskedFor` | crates/daygle-dns/src/lib.rs:467-485 | every take follows a wake-up of its own, every wake-up was sent by a reload of its own, and that had just noted zones as changed |
| `SerialReports.ServedAsRecordedExactly` | crates/daygle-dns-authoritative/src/catalog.rs:493-505 | between reloads the served serials differ from the bookkeeping if and only if the last reload that stored a catalog gave up and its serials differ from the last completed one |
| `SerialReports.GivenUpIsUnreported` | crates/daygle-dns-authoritative/src/catalog.rs:493-505 | a reload that fails after storing its catalog serves new serials that are not to be reported |
| `Health.Monitor.Due` | crates/daygle-dns-authoritative/src/health.rs:142-172 | checks that are gone are forgotten, new ones start healthy and are due at once, the others are as they were and due when their time has come |
| `Health.Monitor.Recheck` | crates/daygle-dns-authoritative/src/health.rs:86-97 | a check that was changed is due at once, and nothing else changes |
| `Health.Monitor.Apply` | crates/daygle-dns-authoritative/src/health.rs:174-208 | one result is counted for its record alone, the counters stay in agreement with the probe history, and the check is due again when its interval says |
| `Health.Monitor.Collect` | crates/daygle-dns-authoritative/src/health.rs:174-208 | after a round the records handed over as down are exactly those whose history says so |
| `Health.DueAfterLast` | crates/daygle-dns-authoritative/src/health.rs:174-208 | the last result of a check says when it is due again |
| `Health.DueUntouched` | crates/daygle-dns-authoritative/src/health.rs:174-208 | without a result a check is due when it was |
| `Health.CountedTracks` | crates/daygle-dns-authoritative/src/health.rs:174-208 | the counters and the healthy flag follow the probe history |
| `Health.DownIsLatestPair` | crates/daygle-dns-authoritative/src/health.rs:174-208 | for every history a record is down exactly when the latest pair of equal consecutive results was two failures |
| `Failover.LowestHealthy` | crates/daygle-dns-authoritative/src/catalog.rs:1203-1243 | the lowest priority among the healthy records of a group, if there is one |
| `Failover.ChooseIds` | crates/daygle-dns-authoritative/src/catalog.rs:1203-1243 | the RRsets failed over are those with a checked and a healthy record, and the ids kept are their healthy records of lowest priority |
| `Failover.Apply` | crates/daygle-dns-authoritative/src/catalog.rs:1203-1243 | what is served, in the stored order: healthy and lowest priority, else the whole RRset |
| `Failover.NeverEmpties` | crates/daygle-dns-authoritative/src/catalog.rs:1203-1243 | an RRset with an enabled A or AAAA record is never left without one |
| `Failover.ServedWhole` | crates/daygle-dns-authoritative/src/catalog.rs:1203-1243 | records of other types, of unchecked RRsets and of RRsets with no healthy record are all served |
| `Failover.Idempotent` | crates/daygle-dns-authoritative/src/catalog.rs:1203-1243 | failing over what was failed over changes nothing |
| `Failover.ServedExactly` | crates/daygle-dns-authoritative/src/catalog.rs:1203-1243 | a record is served if and only if it is disabled, of another type than A and AAAA, in an RRset with no checked or no healthy record, or healthy with no healthy record of its RRset before it in priority |
| `WeightedAnswers.PickWeighted` | crates/daygle-dns-authoritative/src/catalog.rs:278-292 | nothing is picked exactly when the total is zero; otherwise the record whose points hold the drawn point, so the final fallback is never reached |
| `WeightedAnswers.PointsMatchWeight` | crates/daygle-dns-authoritative/src/catalog.rs:278-292 | a record is chosen by exactly its weight many points |
| `WeightedAnswers.PointsDisjoint` | crates/daygle-dns-authoritative/src/catalog.rs:278-292 | no point chooses two records |
| `WeightedAnswers.PointsArePartition` | crates/daygle-dns-authoritative/src/catalog.rs:278-292 | every point below the total chooses a record |
| `WeightedAnswers.IndexRecords` | crates/daygle-dns-authoritative/src/catalog.rs:219-253 | the index of an unsigned zone holds, per owner (ignoring case and trailing dots) and type, exactly its enabled, readable A and AAAA records of positive weight, with their weights |
| `WeightedAnswers.OneMoreCandidate` | crates/daygle-dns-authoritative/src/catalog.rs:219-253 | they are in stored order: a record stored last comes last |
| `WeightedAnswers.CandidatesSurviveFailover` | crates/daygle-dns-authoritative/src/catalog.rs:219-253 | every candidate is an enabled, failover-surviving, positively weighted record of the RRset asked for |
| `TransferCodec.Be4RoundTrip` | crates/daygle-dns-authoritative/src/catalog.rs:1166-1177 | a length survives its four bytes if and only if it is below 2^32 |
| `TransferCodec.RoundTrip` | crates/daygle-dns-authoritative/src/catalog.rs:1166-1196 | decoding undoes encoding for every record list |
| `TransferCodec.StoredFormIsUnique` | crates/daygle-dns-authoritative/src/catalog.rs:1166-1177 | two record lists with the same stored bytes are the same list |
| `TransferCodec.CutAnywhere` | crates/daygle-dns-authoritative/src/catalog.rs:1181-1196 | stored bytes cut off anywhere are an error unless the cut is on a frame boundary, where they are the records before it |
| `TransferCodec.UnreadableFails` | crates/daygle-dns-authoritative/src/catalog.rs:1181-1196 | a stored record that cannot be read is an error, whatever comes before and after it |
| `TransferCodec.EncodeTransfer` | crates/daygle-dns-authoritative/src/catalog.rs:1166-1177 | the encoding loop computes the stored form |
| `TransferCodec.DecodeTransfer` | crates/daygle-dns-authoritative/src/catalog.rs:1181-1196 | the decoding loop computes the record list or the error |
| `SecondaryZone.FileRecords` | crates/daygle-dns-authoritative/src/catalog.rs:1096-1160 | for every transfer: what is filed came, every RRset that came is there, exactly the last record of each kind is filed, of an owner's SOAs the newest, and with no clash all of it; signatures are put aside |
| `SecondaryZone.ClashIs` | crates/daygle-dns-authoritative/src/catalog.rs:1096-1160 | two records clash if and only if they are two SOAs, or one owner's (ignoring case) same data or CNAMEs |
| `SecondaryZone.AttachSignatures` | crates/daygle-dns-authoritative/src/catalog.rs:1144-1162 | each signature goes to the RRset of its owner and of the type it says it covers, and to no other |
| `SecondaryZone.TransferRecords` | crates/daygle-dns-authoritative/src/catalog.rs:682-726 | an SOA if there is one, and behind it exactly the signatures and all records that are not SOAs |
| `SecondaryZone.StoreAndHandOn` | crates/daygle-dns-authoritative/src/catalog.rs:1096-1196 | a secondary rebuilt from the bytes it stored hands on a signature if and only if the transfer has a record of its owner, ignoring case, and of the type it covers; of the other records the last of each kind; and so exactly what the master sent, less signatures over absent RRsets, if and only if no two records clash |
| `SecondaryZone.TwoTtlsClash` | crates/daygle-dns-authoritative/src/catalog.rs:1096-1160 | a clash for every owner and data: the same data under two TTLs, of which only the record that came later is filed |
| `SecondaryZone.SameSerialKeepsFirst` | crates/daygle-dns-authoritative/src/catalog.rs:1096-1131 | of an owner's SOAs with the same serial the first is filed |
| `LogExport.StepKeepsInv` | crates/daygle-dns-api/src/log_export.rs:224-330 | every step of producers and worker keeps the flow of events and the counters in agreement |
| `LogExport.Conservation` | crates/daygle-dns-api/src/log_export.rs:106-153 | in every run: offered = queued + in the batch + sent + dropped + thrown away + on the way, and dropped = reported + unreported + about to be noted |
| `LogExport.FirstInFirstOut` | crates/daygle-dns-api/src/log_export.rs:241-330 | in every run the events dealt with, the batch and the queue are, in order, the events accepted |
| `LogExport.PostedOnlyIfOn` | crates/daygle-dns-api/src/log_export.rs:241-330 | a batch is posted, and counted as sent or dropped, if and only if exporting was on and its settings usable when it was begun; otherwise all of it is thrown away |
| `LogExport.NothingOfferedWhileOff` | crates/daygle-dns-api/src/log_export.rs:113-127 | while exporting is off nothing is offered |
| `LogExport.OffIsNotPosted` | crates/daygle-dns-api/src/log_export.rs:253-280 | a batch begun while exporting is off is not posted |
| `LogExport.SentOrRefused` | crates/daygle-dns-api/src/log_export.rs:139-142 | an event is queued unless the worker has ended or 16384 are queued |
| `LogExport.EndedIsEmpty` | crates/daygle-dns-api/src/log_export.rs:224-330 | once the worker has ended nothing is left queued and no more is sent |
| `LogExport.EndsOnShutdown` | crates/daygle-dns-api/src/log_export.rs:224-330 | the worker ends only once it was asked to stop, unless it never dealt with anything |
| `LogExport.ProducerSteps` | crates/daygle-dns-api/src/log_export.rs:113-153 | what producers, the switch and the shutdown change |
| `LogExport.WorkerSteps` | crates/daygle-dns-api/src/log_export.rs:224-330 | the worker takes queued events in turn, settles the drop report after each batch, and ends after one during which it was told to |
| `LogExport.StepsPossible` | crates/daygle-dns-api/src/log_export.rs:106-330 | no drop waits in vain to be counted and noted, and a waiting worker can begin on a queued event |
| `QueryLogBound.MonthLengths` | crates/daygle-dns-api/src/handlers.rs:1160-1170 | the months' lengths, leap years among them |
| `QueryLogBound.SecondsCount` | crates/daygle-dns-api/src/handlers.rs:1154-1178 | time goes on by one second wherever the calendar does, and 1970 begins where UNIX time does |
| `QueryLogBound.YearTextIs` | crates/daygle-dns-api/src/handlers.rs:1154-1178 | years are written with four digits, with a sign if negative, and with a sign and more digits past 9999 |
| `QueryLogBound.SecondTextIs` | crates/daygle-dns-api/src/handlers.rs:1154-1178 | a time to the second in full |
| `QueryLogBound.EarlierIsBefore` | crates/daygle-dns-api/src/handlers.rs:1154-1178 | field-by-field calendar order is the order of seconds, leap years included |
| `QueryLogBound.SecondsInOrder` | crates/daygle-dns-api/src/handlers.rs:1154-1178 | for four-digit years string order of the timestamp texts is calendar order, then the order of what follows the second |
| `QueryLogBound.BoundsAgree` | crates/daygle-dns-api/src/handlers.rs:1154-1178 | a stored text is at or after From exactly when its second is, and at or before To exactly when its second is, whatever its fraction |
| `QueryLogBound.SignedYearSortsFirst` | crates/daygle-dns-api/src/handlers.rs:1154-1178 | a bound past the year 9999 is written with a sign and sorts before every stored text |
| `QueryLogBound.BoundsAgreeExactly` | crates/daygle-dns-api/src/handlers.rs:1154-1178 | the bounds agree with time order if and only if the bound year is at most 9999 |
| `Accounts.RewriteEntries` | crates/daygle-dns-authoritative/src/accounts.rs:134-172 | the loop over one client list renames or drops the matching entries and keeps the others in order |
| `Accounts.Store.RewriteGroupEntries` | crates/daygle-dns-authoritative/src/accounts.rs:134-172 | every group is rewritten, and one whose list becomes empty is turned off |
| `Accounts.Store.CreateAccount` | crates/daygle-dns-authoritative/src/accounts.rs:233-269 | an account is added, under the trimmed name and lowercase client ID asked for, exactly when these are valid and free; otherwise nothing changes |
| `Accounts.RefusedNames` | crates/daygle-dns-authoritative/src/accounts.rs:68-80 | which names are refused |
| `Accounts.RefusedClientIds` | crates/daygle-dns-authoritative/src/accounts.rs:82-99 | which client IDs are refused |
| `Accounts.Store.UpdateAccount` | crates/daygle-dns-authoritative/src/accounts.rs:272-312 | an account gets the trimmed name, the switch asked for and the lowercase client ID asked for or, if that is blank, the one it had, and its group entries are renamed, exactly when name and client ID are valid and free of others |
| `Accounts.Store.DeleteAccount` | crates/daygle-dns-authoritative/src/accounts.rs:315-333 | the account and the group entries that match its name go |
| `Accounts.Store.CheckClients` | crates/daygle-dns-api/src/handlers.rs:3300-3334 | a client list is let through exactly when each account entry names an account, and such entries are to be stored under its own spelling |
| `Accounts.Store.WriteGroup` | crates/daygle-dns-authoritative/src/store.rs:677-700 | the checked group is written as it was checked, and nothing else changes |
| `Accounts.MatchesExactly` | crates/daygle-dns-policy/src/advanced.rs:45-52 | the rewriting catches an entry that names an account if and only if nothing but the name follows the prefix |
| `Accounts.SpacedEntryIsMissed` | crates/daygle-dns-authoritative/src/accounts.rs:134-172 | an entry with a space after the prefix names the account to the filtering engine and is missed by the rewriting |
| `Accounts.StoredEntry` | crates/daygle-dns-api/src/handlers.rs:3306-3334 | an entry as it is stored names and matches exactly the accounts of that name |
| `Accounts.RenameKeepsNaming` | crates/daygle-dns-authoritative/src/accounts.rs:272-312 | in any store with distinct names, an entry with nothing but the name behind the prefix names after an update the accounts it named before, and the updated one besides if and only if it had that name already |
| `Accounts.RenameKeepsReferences` | crates/daygle-dns-authoritative/src/accounts.rs:272-312 | an entry that resolves names the same accounts after an update as before it, and still resolves |
| `Accounts.RenameKeepsWellFormed` | crates/daygle-dns-authoritative/src/accounts.rs:176-191 | an update keeps names distinct ignoring case and every account entry resolved |
| `Accounts.DeleteDropsEntries` | crates/daygle-dns-authoritative/src/accounts.rs:315-333 | whatever other entries there are, from a group whose entries have nothing but the name behind the prefix exactly those that name the deleted account go, the others keep their order, and a group it emptied is off |
| `Accounts.DeleteKeepsWellFormed` | crates/daygle-dns-authoritative/src/accounts.rs:315-333 | a deletion leaves every remaining account entry resolved |
| `Accounts.CreateKeepsWellFormed` | crates/daygle-dns-authoritative/src/accounts.rs:233-269 | a creation keeps names distinct ignoring case and every account entry resolved |
| `Accounts.RunKeepsNamesDistinct` | crates/daygle-dns-authoritative/src/accounts.rs:233-333 | over every run of creates, updates, deletes, checks and writes of groups, account names stay distinct ignoring case, and client IDs distinct |
| `Accounts.RunKeepsTight` | crates/daygle-dns-authoritative/src/accounts.rs:134-172 | over every run, every account entry that is stored or checked has nothing but the name behind the prefix, so none is missed by the rewriting |
| `Accounts.RunDeleteDropsEntries` | crates/daygle-dns-authoritative/src/accounts.rs:315-333 | in every run, stale writes or not, a deletion takes out exactly the entries that name the account, and turns off a group it empties |
| `Accounts.RunResolvesExactly` | crates/daygle-dns-authoritative/src/accounts.rs:233-333 | in every run, every account entry resolves at all times if and only if each group was written while the entries it was checked with still resolved |
| `Accounts.WriteKeepsExactly` | crates/daygle-dns-api/src/handlers.rs:3300-3334 | where every entry resolves, they still do after a checked group is written if and only if those of its list do at that moment |
| `Accounts.CheckedIsFresh` | crates/daygle-dns-api/src/handlers.rs:3300-3334 | when a client list is checked all its account entries resolve, so a write with nothing in between is safe |
| `Accounts.RenamedInBetween` | crates/daygle-dns-api/src/handlers.rs:3300-3334 | a rename between the check of a group and its write leaves an entry that names no account |
| `Accounts.RunRenameKeepsReferences` | crates/daygle-dns-authoritative/src/accounts.rs:272-312 | in every run, stale writes or not, an update keeps which accounts each entry names, at every place of every group; an entry that had the new name already, and named none, names the updated account |
| `ReverseNames.WriteReverseName` | crates/daygle-dns-dhcp/src/ddns.rs:17-34 | octets split into nibbles, reversed and joined are the lowest-first nibbles of the address |
| `ReverseNames.FoldNibbles` | crates/daygle-dns-authoritative/src/auto_ptr.rs:73-77 | shifting from the highest nibble adds up to the number whose nibbles they are |
| `ReverseNames.ReadsWhatIsWritten` | crates/daygle-dns-authoritative/src/auto_ptr.rs:41-79 | the reverse name of every IPv4 and IPv6 address is read back as that address |
| `ReverseNames.WritesWhatIsRead` | crates/daygle-dns-authoritative/src/auto_ptr.rs:41-79 | a name read as an address is its written name, up to case and trailing dots, if and only if it has no `+` |
| `ReverseNames.PlusIsReadToo` | crates/daygle-dns-authoritative/src/auto_ptr.rs:45-55 | a `+` before any IPv4 reverse name is read as the same address |
| `ReverseZones.CoversByLabels` | crates/daygle-dns-api/src/reverse.rs:62-71 | the suffix test on texts is exactly the test on whole labels |
| `ReverseZones.PrefixZoneCoversExactly` | crates/daygle-dns-api/src/reverse.rs:74-83 | the zone of a prefix covers the reverse names of exactly the addresses with that prefix (section 3.5 of RFC 1035, section 2.5 of RFC 3596) |
| `ReverseZones.DefaultZoneIsPrefix` | crates/daygle-dns-api/src/reverse.rs:74-83 | the default reverse zone is the zone of the /24 or /64 |
| `ReverseZones.DefaultZoneCoversExactly` | crates/daygle-dns-api/src/reverse.rs:74-83 | it covers the address it is made for and exactly the addresses of that /24 or /64 |
| `ReverseZoneText.ReadsText` | web/src/reverseZone.js:61-71 | every way to write an IPv6 address (any `::`, either case, leading zeros) is read as its eight groups |
| `ReverseZoneText.AcceptsOnlyTexts` | web/src/reverseZone.js:61-71 | what is accepted is such a text and nothing else |
| `ReverseZoneText.ZoneOfDenoted` | web/src/reverseZone.js:10-38 | a text of an address gives the zone of the prefix when it ends on a label boundary, and an error otherwise |
| `ReverseZoneText.ZoneNameExactly` | web/src/reverseZone.js:10-38 | a zone is given if and only if the input is a network on a label boundary, and it is the zone of that prefix |
| `ReverseZoneText.RecordNameExactly` | web/src/reverseZone.js:43-52 | a name is given if and only if the input denotes an address, and it is the reverse name of that address |
| `ReverseZoneText.ConsoleAndServerAgree` | web/src/reverseZone.js:43-58 | the server reads the name the console writes as the same address, and both give the same default zone |
| `ReverseZoneText.DefaultZonesAgree` | web/src/reverseZone.js:56-58 | the console and the server name the same default reverse zone for every address |
| `ReverseZoneText.DenotesOne` | web/src/reverseZone.js:61-71 | a text denotes at most one address |
| `AutoPtr.AutoPtrIndex.AddRule` | crates/daygle-dns-authoritative/src/auto_ptr.rs:102-110 | the rule is held under the lowercase owner without trailing dots, with its template in the same form |
| `AutoPtr.AutoPtrIndex.AddPtrName` | crates/daygle-dns-authoritative/src/auto_ptr.rs:113-116 | the name is held lowercase and without trailing dots |
| `AutoPtr.AutoPtrIndex.Lookup` | crates/daygle-dns-authoritative/src/auto_ptr.rs:121-133 | the loop over a shrinking candidate ends and computes the answer |
| `AutoPtr.FirstIsClosest` | crates/daygle-dns-authoritative/src/auto_ptr.rs:126-132 | the rule found first has the longest owner that is a label suffix of the name; none is found exactly when there is none |
| `AutoPtr.AnswerExactly` | crates/daygle-dns-authoritative/src/auto_ptr.rs:121-133 | there is an answer if and only if the name stands for an address, has no PTR record and lies at or under a rule; the longest such rule gives it |
| `AutoPtr.CountPositive` | crates/daygle-dns-authoritative/src/auto_ptr.rs:34-34 | replacing from the left misses no placeholder |
| `AutoPtr.ReplacedFirst` | crates/daygle-dns-authoritative/src/auto_ptr.rs:19-35 | the first `{ip}` of a template is replaced by the address, and so on in what follows it |
| `AutoPtr.TargetsDiffer` | crates/daygle-dns-authoritative/src/auto_ptr.rs:19-35 | a template gives two different addresses different targets if and only if it has a placeholder, however many |
| `AutoPtr.AnswersDiffer` | crates/daygle-dns-authoritative/src/auto_ptr.rs:121-133 | two different addresses answered by one rule get different targets if and only if its template has a placeholder |
| `AutoPtr.SpellingIgnored` | crates/daygle-dns-authoritative/src/auto_ptr.rs:102-133 | an address is answered for if and only if no PTR name held is a spelling of its reverse name and some owner held is a spelling of a name at or above it |
| `AutoPtr.RuleAnswersNetwork` | crates/daygle-dns-authoritative/src/auto_ptr.rs:102-133 | a rule added under any spelling of a network's zone answers for exactly the addresses of that network without a PTR name, besides those other rules answer for, and with its own target where no longer rule covers the address |
| `PtrSync.SpellingsSame` | crates/daygle-dns-api/src/reverse.rs:55-59 | a name is the same in lowercase, with a trailing dot and with space around it |
| `PtrSync.ReverseZone` | crates/daygle-dns-api/src/reverse.rs:62-71 | the most specific hosted zone over a name, none exactly when no zone covers it |
| `PtrSync.ReverseRecords.Remove` | crates/daygle-dns-api/src/reverse.rs:92-115 | the PTR records of the address to the name go from that zone unless it is secondary, and nothing else changes |
| `PtrSync.ReverseRecords.Add` | crates/daygle-dns-api/src/reverse.rs:119-189 | the whole new store and how adding ended, in every branch |
| `PtrSync.ReverseRecords.Sync` | crates/daygle-dns-api/src/reverse.rs:193-228 | the whole new store after a record changed |
| `PtrSync.CreatedZone` | crates/daygle-dns-api/src/reverse.rs:129-143 | a zone created for an address has an unused name and is the most specific one over it |
| `PtrSync.AddEndsWithPtr` | crates/daygle-dns-api/src/reverse.rs:119-189 | adding succeeds if and only if the PTR record is then in the most specific hosted zone, which is not secondary |
| `PtrSync.AddAgain` | crates/daygle-dns-api/src/reverse.rs:155-164 | adding a PTR record that is there changes nothing |
| `PtrSync.RemoveUndoesAdd` | crates/daygle-dns-api/src/reverse.rs:92-189 | removing an added PTR record leaves the records as they were, a created zone apart |
| `PtrSync.DeletesExactly` | crates/daygle-dns-api/src/reverse.rs:193-215 | a record is deleted if and only if it is a PTR from the old address to the old name, in the most specific zone, not secondary, and address or name changed |
| `PtrSync.OldPtrGoes` | crates/daygle-dns-api/src/reverse.rs:206-213 | the old PTR records go if the record went, lost its address, or has another address or name; with the same address and name none goes |
| `PtrSync.MovedAway` | crates/daygle-dns-api/src/reverse.rs:193-228 | after a record moved, was renamed or went, its address has no PTR to its old name any more |
| `PtrSync.EndingIs` | crates/daygle-dns-api/src/reverse.rs:119-189 | how adding ends, by what zones and PTR records there were |
| `PtrSync.NothingToAdd` | crates/daygle-dns-api/src/reverse.rs:193-228 | nothing is added for a record that is gone, disabled or without an address, and with the option off nothing changes |
| `PtrSync.KeepsRecords` | crates/daygle-dns-api/src/reverse.rs:193-228 | a record that stays is unchanged |
| `PtrSync.KeepsZones` | crates/daygle-dns-api/src/reverse.rs:193-228 | every zone stays under its name, secondary or not |
| `PtrSync.AddsOnePtr` | crates/daygle-dns-api/src/reverse.rs:193-228 | at most one PTR record is new and it is not in a secondary zone; any other new record is the NS of a created zone |
| `PtrSync.SyncEndsWithPtr` | crates/daygle-dns-api/src/reverse.rs:193-228 | for an enabled new record the PTR ends up in the most specific hosted zone if and only if no problem or error is reported |
| `PtrSync.SyncAgain` | crates/daygle-dns-api/src/reverse.rs:193-228 | synchronising again after that changes nothing |
| `CatalogPublish.CatalogMembers` | crates/daygle-dns-authoritative/src/catalog_zone.rs:36-78 | a catalog is read if and only if it has one version record and that says 2, and then the list holds exactly the names of the PTR records just below its zones, each the first of its name |
| `CatalogPublish.MembersExactly` | crates/daygle-dns-authoritative/src/catalog_zone.rs:57-77 | the list holds, once each, exactly the zones named by the first record of some label directly under zones |
| `CatalogPublish.MembersAre` | crates/daygle-dns-authoritative/src/catalog_zone.rs:57-77 | for any records a name is in the list if and only if the first PTR of some owner one label below `zones.<catalog>`, ignoring case, points at it (a `*` in front is not counted as a label) |
| `CatalogPublish.PropertiesListNothing` | crates/daygle-dns-authoritative/src/catalog_zone.rs:62-66 | a record further below, such as a member property, or of another type, leaves the list as it was |
| `CatalogPublish.DeclaresTwoIs` | crates/daygle-dns-authoritative/src/catalog_zone.rs:43-56 | a catalog is of schema version 2 if and only if it has one version record and its text, quoted or not, is a 2 |
| `CatalogPublish.Versions` | crates/daygle-dns-authoritative/src/catalog_zone.rs:43-56 | catalogs with no version record, two, or another version are refused |
| `CatalogPublish.PublishedAre` | crates/daygle-dns-authoritative/src/catalog.rs:1283-1319 | the records published: SOA, NS, version, and one PTR for each member |
| `CatalogPublish.Gather` | crates/daygle-dns-authoritative/src/catalog.rs:1261-1274 | the members are exactly the enabled primary zones, but for one of the catalog's own name in any case, each under the label made of its id |
| `CatalogPublish.GatheredExactly` | crates/daygle-dns-authoritative/src/catalog.rs:1255-1276 | the members gathered are exactly those of the enabled primary zones other than the catalog |
| `CatalogPublish.LabelsDiffer` | crates/daygle-dns-authoritative/src/catalog.rs:1267-1274 | zones with different ids get different labels |
| `CatalogPublish.ConsumerReads` | crates/daygle-dns-authoritative/src/catalog_zone.rs:36-78 | from the published records in any order the consumer reads each enabled primary zone other than the catalog, once, under the name its labels are printed as |
| `CatalogPublish.ConsumerUndoesPublisher` | crates/daygle-dns-authoritative/src/catalog_zone.rs:36-78 | the consumer reads exactly the enabled primary zones other than the catalog if and only if no published name has a label that is printed in Unicode (section 4.1 of RFC 9432) |
| `CatalogPublish.ZoneIsRead` | crates/daygle-dns-authoritative/src/catalog_zone.rs:72-75 | a published zone is read under its own name if and only if none of its labels is printed in Unicode |
| `CatalogPublish.ReadAsItself` | crates/daygle-dns-authoritative/src/catalog_zone.rs:72-72 | a stored name is read as itself if and only if none of its labels is printed in Unicode |
| `CatalogPublish.PunycodeNameIsMisread` | crates/daygle-dns-authoritative/src/notify.rs:183-185 | `xn--bcher-kva.de` can be stored and is read as `bücher.de`, which cannot |
| `CatalogSerial.DigestDiffers` | crates/daygle-dns-authoritative/src/catalog.rs:1278-1282 | two member lists have the same digest if and only if they are printed the same |
| `CatalogSerial.DigestsExact` | crates/daygle-dns-authoritative/src/catalog.rs:1278-1282 | lists that share a digest are the same list, for all lists, if and only if no two labels are printed alike |
| `CatalogSerial.OneOrder` | crates/daygle-dns-authoritative/src/catalog.rs:1277-1277 | there is one way to put a set of members in order |
| `CatalogSerial.DigestFollowsMembers` | crates/daygle-dns-authoritative/src/catalog.rs:1277-1283 | digests are the same if and only if the published zones are printed the same, whatever order the store lists them in; as no zone is ever renamed, if and only if the same zones are published |
| `CatalogSerial.CatalogState.CatalogSerial` | crates/daygle-dns-authoritative/src/store.rs:1723-1752 | a catalog not seen before gets the time as its serial; with the same digest it keeps its serial, with another it gets the next one, past 2^32 - 1 it is 1; rows of other catalogs stay |
| `CatalogSerial.SerialFollowsMembers` | crates/daygle-dns-authoritative/src/store.rs:1723-1752 | from one build to the next the serial stays if and only if the published zones, as printed, stay (as no zone is renamed: if and only if they stay); otherwise it moves one or two ahead in serial arithmetic |
| `MemberStore.SpellingsNormalized` | crates/daygle-dns-core/src/config.rs:1918-1920 | space around a zone name and a trailing dot make no difference |
| `CatalogConsumer.CatalogFollower.ServeMember` | crates/daygle-dns-authoritative/src/catalog_zone.rs:275-304 | one member: served or clashing afterwards, other zones untouched, unchanged if it was settled; it fails exactly when the store has no such zone and refuses the name, and then nothing changed |
| `CatalogConsumer.CatalogFollower.ServeAll` | crates/daygle-dns-authoritative/src/catalog_zone.rs:275-304 | the members served so far and nothing else; it fails exactly when the store refuses a member it has no zone for |
| `CatalogConsumer.CatalogFollower.Reconcile` | crates/daygle-dns-authoritative/src/catalog_zone.rs:250-318 | only zones of this catalog are touched, also on failure; with a list the catalog is then reconciled, or it failed because a name was refused or the reload failed; on a reconciled catalog nothing changes; without a list no zone is added or removed |
| `CatalogConsumer.CatalogFollower.RemoveMember` | crates/daygle-dns-authoritative/src/catalog_zone.rs:320-325 | the zone and what refers to it go; zones of others are untouched |
| `CatalogConsumer.CatalogFollower.RemoveOrphans` | crates/daygle-dns-authoritative/src/catalog_zone.rs:328-342 | exactly the zones of catalogs not configured go; every remaining owner is configured; without any, nothing changes |
| `CatalogConsumer.CatalogFollower.Refresh` | crates/daygle-dns-authoritative/src/catalog_zone.rs:189-246 | the deciding master's list is followed unless the store refuses a name of it, the refresh fails besides only if the serving data had to be rebuilt and could not, the serial is recorded only after it went through, and without a list no zone changes |
| `CatalogConsumer.CatalogFollower.Wake` | crates/daygle-dns-authoritative/src/catalog_zone.rs:124-130 | the state of the one catalog is forgotten, and nothing else changes |
| `CatalogConsumer.CatalogFollower.RefreshIfDue` | crates/daygle-dns-authoritative/src/catalog_zone.rs:166-182 | a catalog that is due is refreshed and the outcome noted, with the serial before if it failed; otherwise nothing changes |
| `CatalogConsumer.CatalogFollower.Tick` | crates/daygle-dns-authoritative/src/catalog_zone.rs:156-184 | a round is the removal of orphans and then a check of each consumer in turn, each step as the run theorems take it |
| `CatalogConsumer.DecidingIs` | crates/daygle-dns-authoritative/src/catalog_zone.rs:201-245 | the answer that ends the round of masters is one of theirs: a bad address, the serial noted last, or a new serial with a transfer that did not fail |
| `CatalogConsumer.DecidingExactly` | crates/daygle-dns-authoritative/src/catalog_zone.rs:201-245 | the first bad address, unchanged serial, or new serial whose transfer did not fail decides; if there is none, nothing does |
| `CatalogConsumer.OwnsExactly` | crates/daygle-dns-authoritative/src/catalog_zone.rs:250-318 | a reconciled catalog owns a zone of a name if and only if it lists it and no other zone has the name (section 5.2 of RFC 9432) |
| `CatalogConsumer.OwnedFromMasters` | crates/daygle-dns-authoritative/src/catalog_zone.rs:263-287 | each zone it owns is a secondary of the catalog's masters, in the store as in the refresher |
| `CatalogConsumer.UnchangedSerialRestoresNothing` | crates/daygle-dns-authoritative/src/catalog_zone.rs:220-224 | a refresh with an unchanged serial leaves the catalog in line with its list if and only if every listed name still had a zone |
| `CatalogRuns.UnchangedCheckRestoresNothing` | crates/daygle-dns-authoritative/src/catalog_zone.rs:220-224 | a check that finds the serial unchanged adds and removes no zone, and leaves the catalog in line with a list if and only if every listed name still had a zone and it owned no others |
| `CatalogRuns.CheckFollowsFirstList` | crates/daygle-dns-authoritative/src/catalog_zone.rs:166-246 | a check of a catalog that is due, whose masters up to the next list gave no SOA, other data or a failed transfer, leaves it in line with that list and notes its serial, unless a name is refused or the rebuild fails |
| `CatalogRuns.CheckWithoutList` | crates/daygle-dns-authoritative/src/catalog_zone.rs:166-246 | a check that gets no new list changes no zone, and one that is not due nothing |
| `CatalogRuns.HandDeletedStaysAway` | crates/daygle-dns-authoritative/src/catalog_zone.rs:220-224 | for every catalog, member and serial, a run in which the member zone is deleted by hand and the next check leaves it so |
| `CatalogRuns.OnlyTheOwnerTouches` | crates/daygle-dns-authoritative/src/catalog_zone.rs:156-342 | over every run with changing settings and catalogs, a zone no catalog added is never deleted or re-mastered by one, and a catalog's zone only by its own or once that is not configured |
| `CatalogRuns.OwnersConfigured` | crates/daygle-dns-authoritative/src/catalog_zone.rs:328-342 | once orphans were removed every owner is configured, through all checks of configured catalogs |
| `CatalogRuns.RoundLeavesOwnersConfigured` | crates/daygle-dns-authoritative/src/catalog_zone.rs:156-184 | after a round every owner is configured |
| `CatalogRuns.RecordedIsReconciled` | crates/daygle-dns-authoritative/src/catalog_zone.rs:220-240 | in every run a serial noted for a catalog was noted by a check that had just reconciled the list its master gave with it, and has been the noted one since |
| `CatalogRuns.ReconciledWhileNamed` | crates/daygle-dns-authoritative/src/catalog_zone.rs:156-342 | from a check that reconciled its list to the catalog's next one, through other catalogs' checks, NOTIFYs and sweeps, the catalog is in line with the list if and only if every listed name still has a zone |
| `CatalogRuns.RoundLeavesReconciled` | crates/daygle-dns-authoritative/src/catalog_zone.rs:156-184 | at the end of a round a catalog whose check in it went through is in line with its list if and only if every listed name has a zone then |
| `CatalogRuns.ClashFreedTooLate` | crates/daygle-dns-authoritative/src/catalog_zone.rs:156-184 | a round after which it is not: the second catalog's check removes the zone the first one had clashed with |
| `CatalogRoundTrip.ReadListIsUsable` | crates/daygle-dns-authoritative/src/catalog_zone.rs:57-77 | whatever the records, the list read has normal names, each once |
| `CatalogRoundTrip.PublisherToConsumer` | crates/daygle-dns-authoritative/src/catalog_zone.rs:250-318 | after reconciling what it read, the consumer owns exactly the publisher's enabled primary zones, under the names they are printed as, whose names were not taken |
| `CatalogRoundTrip.ZoneArrives` | crates/daygle-dns-authoritative/src/catalog_zone.rs:250-318 | a published zone is then owned under its own name if and only if that was free and no label of it is printed in Unicode |

## Left out

- `confirm_password`: it returns its permit before it records, which is another protocol.
- The arrival of a NOTIFY (`wake`) while a catalog refresh is under way; `Wake` is modelled between rounds.
- SQLite, its I/O errors and its transactions' internals: a store operation succeeds or, where the code relies on it, refuses a name or a record given as an input.
- Hickory, wire formats of single records, RRSIG and NSEC generation, password hashing, TLS: records and their codec are abstract, and adding a record to an RRset is modelled as that library does it.
- HTTP routing, JSON shaping, settings, certificates, alert texts, audit entries and log lines.
- The updater and its scripts, host statistics, device names and the rest of the web console: easy members only.
- White space other than space, tab, newline and carriage return in trimming; letter case is ASCII, but for account names, where it is a parameter folding one character at a time (so a final sigma is not told apart by position).
- Clocks: one reading per call; start-ups of a restore in distinct seconds where a theorem says so; leap seconds and parsing of timestamps.
- Wrap-around of 32- and 64-bit counters of failures, probes, weights and exported events, and the bias of a random number taken modulo the total.
- Restore.Disk.StageRestore: two stagings at once, which share the partial file, are not modelled.
- WeightedAnswers.CandidatesSurviveFailover: within one zone; a hosted parent and child zone that share an owner name are not modelled.
- CatalogPublish.ConsumerUndoesPublisher: the decoding of `xn--` labels is a parameter of which only `Decodes` is known (no white space, dot or comma in what it gives, and no `xn--` again); names are printed with white space and dots escaped, and names over 255 octets are not modelled.
- CatalogConsumer.CatalogFollower.Tick: the refresher's configurations are kept by normal zone name; one entered with a trailing dot is not told apart.
- PtrSync.DeletesExactly: claims no removal when a record is replaced by a disabled one with the same name and address, since the code leaves the PTR there.
- PtrSync.AddEndsWithPtr: for host names without white space, as the store holds them; the PTR that was there may be a disabled one.
- ReverseZoneText.ReadsText: IPv6 texts that end in a dotted IPv4 address are not accepted by the console and not among the texts.
