# boxmunge: a verified model of its state machines and codecs

boxmunge runs containerised projects on one box. Several parts of it promise
something about every crash, every history or every input, and those promises are
what this project models in Dafny and proves. `dafny verify dfyconfig.toml`
checks all of it.

A kill, or an I/O error, may come between any two filesystem calls: such a step
returns `Stopped` (see `Options.Outcome`) without saying whether it took effect.
Code that the program writes as loops and updates is a class whose methods are
proved against functions on values; the promises are then proved about those
functions, over whole runs.

- **Install transaction** (`ReleaseKeep`, `ReleaseTxn`, `InstallStore`,
  `InstallRun`, `StaleRecord`, `BackupSource`). The kept release and its metadata
  move between four names; a record with phases says how far an install got. `InstallRun` is
  the machine of every bundle-project install, resume, fix-forward, rollback and
  abandon; each event is one durable step, so a prefix of a run is a crash.
- **Installer** (`DataDirs`, `Ledger`, `Installer`). Which entries hold the app's
  data, and the install that replaces all the others while the containers, with the
  mounts they were started with, write wherever these let them. A ledger logs every
  write, move and loss, so that what the app still has can be read off it.
- **Secrets file** (`Text`, `SecretsCodec`, `SecretsFile`). The quoted form, its
  scanners, and the rewriter.
- **Bundle links** (`BundleLinks`). The lexical policy against name-by-name
  resolution, section 4.13 of the Base Definitions of POSIX.1-2017.
- **Logs, Caddy journal, restart holds** (`LogRotation`, `CaddyJournal`,
  `RestartHold`).
- **Update selection** (`ReleaseCatalog`, `ReleaseSelection`) and the
  version-check service's counters (`RateLimiter`, `CheckCounter`,
  `FailureStore`).

Where the code gives less than it seems to, the model keeps the code as it is, a
lemma or a method shows the case, and another states exactly when the stronger
reading holds:

- Data a container writes to an entry after an install has seen nothing there can
  be overwritten (`Installer.Project.ALateWriteIsLost`), and only that can
  (`Installer.Project.LostOnlyAfterALook`). What becomes of each entry the live
  release mounts, and no container writes meanwhile, is in the contract of
  `Installer.Project.InstallRelease`: it is replaced if and only if the release ships
  something for it and it was found holding nothing.
- A release that ships an entry named like a staging copy overwrites that copy: box
  state is promised to stay only where the release ships nothing
  (`Installer.Project.InstallRelease`).
- A rescue can pair one release's tree with another's metadata:
  `ReleaseKeep.ACutUndoCanMispair`, `ReleaseKeep.ARescuePairsExactlyWhen`.
- stale_reason accepts a text the attempt can no longer leave:
  `StaleRecord.TooLateIsReached`, `StaleRecord.OutsideLiveIsReportedExactlyWhen`.
- An install is closed whatever `replace_release` returns, so after a failed start
  backups read the new manifest while the old release runs:
  `BackupSource.AFailedSwitchMisleadsBackups`,
  `BackupSource.BackupsReadTheReleaseInCharge`.
- An accepted bundle link may be resolved through the directory above the top one
  (`app/l -> ../app`): `BundleLinks.AReboundIsAccepted`,
  `BundleLinks.NeverAboveExactlyWhen`. A hard link to a symlink is accepted by the
  name it links to and may lead outside: `BundleLinks.AHardLinkCanClimb`,
  `BundleLinks.LinksCannotClimbExactlyWhen`.
- A Caddy site written twice, the second write cut, is not always restored:
  `CaddyJournal.ACutSecondWriteKeepsTheFirst`,
  `CaddyJournal.CutWriteIsHarmlessExactlyWhen`. A commit cut part-way lets a later
  restore undo an accepted site: `CaddyJournal.ACutCommitCanUndoAnAcceptedSite`,
  `CaddyJournal.ACutCommitIsHarmlessExactlyWhen`. An outside rewrite that repeats
  boxmunge's own text is undone: `CaddyJournal.ARepeatedRewriteIsUndone`.
- A reporter can go uncounted: `FailureStore.ARefusedReportCanGoUncounted`,
  `FailureStore.UncountedExactlyWhenAllRefused`,
  `FailureStore.CountedExactlyWhenAWindowStartedInTime`.

## Model

| member | source | states |
|---|---|---|
| ReleaseKeep.CrashSafeUndo | src/boxmunge/release_keep.py:46-89 | after any number of keeps and undos cut at any step, one undo run to its end leaves `previous/` and `previous.json` exactly as the install found them, present or absent |
| ReleaseKeep.NothingFoundIsEverLost | src/boxmunge/release_keep.py:46-89 | at every stopping point what the install found is under one of its two names |
| ReleaseKeep.DroppingKeepsARollbackTarget | src/boxmunge/release_keep.py:92-108 | a rescue run to its end, then a discard cut anywhere, leaves a rollback target and its metadata wherever there were some, and nothing foreign |
| ReleaseKeep.ARescuePairsExactlyWhen | src/boxmunge/release_keep.py:46-100 | after any keeps and undos, each cut anywhere, a rescue leaves a tree and metadata that belong together if and only if the two in place are both a keep's or neither is (a keep's being the one next to what it moved aside); only if, when no keep wrote over again what was found |
| ReleaseKeep.ACutUndoCanMispair | src/boxmunge/release_keep.py:73-100 | a finished keep, an undo cut between its halves and a rescue leave a mismatch |
| ReleaseKeep.ReleasesDir.KeepPrevious | src/boxmunge/release_keep.py:46-70 | the keep, call by call, stops only in the listed states, and ends in the last; it renames nothing unless starting the data-dir record succeeded |
| ReleaseKeep.ReleasesDir.RestoreSuperseded | src/boxmunge/release_keep.py:73-89 | so does the undo |
| ReleaseKeep.ReleasesDir.RescueSuperseded | src/boxmunge/release_keep.py:92-100 | so does the rescue |
| ReleaseKeep.ReleasesDir.DiscardSuperseded | src/boxmunge/release_keep.py:103-108 | only what was moved aside goes, tree first |
| ReleaseKeep.ReleasesDir.DiscardDir | src/boxmunge/fileutil.py:242-261 | however it is cut, its own name holds the whole directory or nothing; what is not a directory is refused untouched |
| ReleaseTxn.AbandonExactlyUntilActed | src/boxmunge/release_txn.py:75-97 | along any chain of attempts --abandon is accepted if and only if none so far was a rollback or reached its hook |
| ReleaseTxn.WhatWasDoneIsCarried | src/boxmunge/release_txn.py:186-222 | `touched`, and all an attempt may have done, never weaken along a chain |
| ReleaseTxn.PhasesOnlyMoveForward | src/boxmunge/release_txn.py:215-222 | within one attempt every later record is strictly further |
| ReleaseTxn.AdvancesExactlyWhen | src/boxmunge/release_txn.py:215-222 | an attempt can advance from one phase to another if and only if it comes later in the order of its kind |
| InstallStore.Install.OpenTxn | src/boxmunge/release_txn.py:165-183 | refuses over an open record; writes what the install finds, at committed |
| InstallStore.Install.SupersedeTxn | src/boxmunge/release_txn.py:186-212 | exactly when it refuses, and the record that takes over |
| InstallStore.Install.Advance | src/boxmunge/release_txn.py:215-222 | exactly when it refuses, and the new record, in one write |
| InstallStore.Install.MarkAbandon | src/boxmunge/release_txn.py:225-231 | exactly when it refuses, and the new record, in one write |
| InstallStore.Install.LoadTxn | src/boxmunge/release_txn.py:140-162 | accepts exactly no record, or one with a phase of its kind |
| InstallStore.Install.EnsureKeptPairing | src/boxmunge/release_keep.py:111-126 | when it rewrites previous.json, to what, and that it changes nothing else |
| InstallStore.Install.CloseTxn | src/boxmunge/release_txn.py:234-240 | the record goes only once what was moved aside is gone |
| InstallStore.Install.StaleReason | src/boxmunge/release_txn.py:243-269 | computes the set of outside changes |
| InstallRun.NoFalseStaleness | src/boxmunge/release_txn.py:243-269 | in every state any run can be killed in, stale_reason accuses nothing |
| StaleRecord.OutsideLiveIsReportedExactlyWhen | src/boxmunge/release_txn.py:243-269 | in any state of any run, a live.json from outside is reported if and only if it is not expected, no run of the attempt's own steps leaves it, and it is not a text of the attempt that it can no longer leave |
| StaleRecord.OutsidePreviousIsReportedExactlyWhen | src/boxmunge/release_txn.py:243-269 | the same for a previous.json from outside |
| StaleRecord.MissingPreviousIsReportedExactlyWhen | src/boxmunge/release_txn.py:243-269 | in any state of any run, a missing previous.json is reported if and only if one is expected, no run of the attempt's own steps under this record leaves it missing with that moved aside, and it is not one that could only be at another phase |
| StaleRecord.TooLateIsReached | src/boxmunge/release_txn.py:251-255 | any install over a kept release reaches a state that accepts the replaced release's live.json, which it can no longer leave |
| StaleRecord.LivesLeftExactly | src/boxmunge/commands/deploy_tree.py:119-263 | exactly which live.json the attempt's own steps can still leave |
| StaleRecord.PreviousLeftExactly | src/boxmunge/release_keep.py:46-126 | exactly which previous.json they can still leave |
| StaleRecord.NoneLeftExactly | src/boxmunge/release_keep.py:46-126 | exactly when they can leave it missing, phase by phase |
| InstallRun.UndoIsExactInAnyRun | src/boxmunge/release_keep.py:73-89 | while no attempt may have changed data, the undo is still exact, in any run; so is closing after it |
| InstallRun.AbandonPutsTheCodeBack | src/boxmunge/commands/install_abandon.py:79-121 | at abandoned_code the release in charge is the code in the project |
| InstallRun.AbandonUntilAHook | src/boxmunge/release_txn.py:75-97 | in any run --abandon may be started if and only if, since the install was opened, no attempt was a rollback and none advanced to its hook or beyond |
| InstallRun.PreviousIsTheAttempts | src/boxmunge/release_keep.py:35-126 | from an attempt's keep or pairing on, until it is taken over, abandoned or finished, previous.json names the replaced release, this attempt's snapshot, start and ref |
| BackupSource.BackupsReadTheReleaseInCharge | src/boxmunge/backup_source.py:44-78 | in every run a backup reads a manifest if and only if a release is in charge and, since the install was opened, no attempt was a rollback or advanced to its switch; it skips with an alert if and only if some did and the open attempt is no rollback; the manifest is the release in charge, and the running one's if and only if at the last switch containers were started, or ran its code already |
| BackupSource.AFailedSwitchMisleadsBackups | src/boxmunge/commands/deploy_tree.py:249-263 | a run whose switch failed and was closed all the same, after which it is not |
| Ledger.LossesFollowALook | src/boxmunge/release.py:320-330 | whatever the log says was lost was written after an install had seen nothing there, the entry being neither on record nor newly mounted since |
| Ledger.TheLastWriteIsKept | src/boxmunge/data_dirs.py:137-158 | what was written last, and neither moved nor lost, is still the app's |
| Installer.Project.InstallRelease | src/boxmunge/release.py:293-341 | refused if and only if something cannot be read or the release ships what it may not, and then nothing changes. Done or cut anywhere: the app's data is where it left it and on record or mounted, or its loss is excused; but for what containers wrote, boxmunge's entries, data, and the staging copies holding data of all that is mounted, staged or on record, are untouched where nothing is shipped; what is adopted is in place or set aside. Done, with the same exception: nothing else that is not shipped survives; an entry the live release mounts is as shipped if it was found empty and something is shipped, else as it was; outside box state, and for all shipped entries but placeholders over data, all is exactly what the release ships; the new record lists only data found or mounted, all the release mounts read-write and all data found holding something, and nothing shipped as code and found empty |
| DataDirs.RefusedExactlyWhen | src/boxmunge/release.py:142-193 | a release passes if and only if all can be read, it ships nothing of the box's own, and what it ships but placeholders is neither for an entry it mounts read-write nor for data that the record, the live or a kept release claims |
| DataDirs.PlaceholderExactlyWhen | src/boxmunge/bundle.py:190-201 | a placeholder is a directory with nothing but directories and empty keep files at any depth |
| DataDirs.DataIsBoxState | src/boxmunge/data_dirs.py:136-218 | data found where the release ships nothing is recorded, and the staging copy of whatever is mounted, staged or data is box state |
| Installer.Project.AnyHistory | src/boxmunge/release.py:293-341 | the same over any history of installs, container writes and restarts, kept and staged releases |
| Installer.Project.constructor | src/boxmunge/release.py:293-341 | a history may begin with any project whose containers run its live compose file: that is a safe state, and the app has the data at entries on record or mounted |
| Installer.Project.DataIsThere | src/boxmunge/data_dirs.py:137-158 | in a safe state, data that was there at first, or that a container wrote, and that nothing later wrote over, moved or lost, is there |
| Installer.Project.LostOnlyAfterALook | src/boxmunge/release.py:320-330 | in a safe state, every loss is of data written after an install had seen nothing there |
| Installer.Project.WritesAreContainers | src/boxmunge/release.py:209-242 | in a safe state, each logged write was through a mount of the containers then running, and what counts as written since an install began is what they wrote since |
| Installer.Project.ALateWriteIsLost | src/boxmunge/release.py:209-242 | such a loss: a container writes to a recorded empty entry the release ships a placeholder for, after the install has looked |
| Installer.Project.MovedIsKept | src/boxmunge/data_dirs.py:321-349 | in a safe state, every piece set aside is where it was moved to |
| Installer.Project.Replace | src/boxmunge/release.py:309-330 | recorded data is as found, what is outside box state becomes exactly the shipped tree, and the new record is written |
| Installer.Project.StartRecord | src/boxmunge/data_dirs.py:321-349 | every piece adopted is at its entry or set aside at every stop; the record is written only after all of it is |
| Installer.Project.MoveContents | src/boxmunge/data_dirs.py:264-274 | the same for one entry, piece by piece |
| Installer.Project.EnsureRecord | src/boxmunge/release.py:117-129 | a record is there before a kept release changes; a stop loses nothing |
| Installer.Project.InstallEntry | src/boxmunge/release.py:222-242 | touches that entry only, ends with the shipped one unless a container writes there, and keeps the inode of a directory over a directory |
| SecretsCodec.DecodeUndoesEncode | src/boxmunge/secrets.py:115-139 | a value is read back from its stored form if and only if no odd run of backslashes ends it or precedes a single quote |
| SecretsCodec.EncodeUndoesDecode | src/boxmunge/secrets.py:115-139 | every text that decodes is the stored form of a value that can be carried |
| SecretsCodec.DecodesExactlyUnlessItSpans | src/boxmunge/secrets.py:155-174 | a text starting with a single quote decodes if and only if it cannot span lines |
| SecretsCodec.DecodeSingleQuoted | src/boxmunge/secrets.py:119-139 | the scanning loop computes the decoding |
| SecretsCodec.MaySpanLines | src/boxmunge/secrets.py:155-174 | the other loop computes whether the value runs on |
| SecretsCodec.SpansUnlessClosedAtTheEnd | src/boxmunge/secrets.py:155-174 | a value may span lines unless, white space aside, it opens no quote, of either kind, or the first quote of that kind with an even run of backslashes before it is the last character |
| SecretsFile.RewriteKeepsMeaning | src/boxmunge/secrets.py:284-319 | after any edits: it parses, each key reads what its last accepted edit said, other literal values are unchanged, other lines are the same text, and no key newly spans lines |
| SecretsFile.SpanningKeysCanBeCleared | src/boxmunge/secrets.py:284-308 | unsetting a spanning key is accepted and clears exactly that key |
| SecretsFile.AcceptedExactlyWhen | src/boxmunge/secrets.py:177-319 | an edit is accepted if and only if its value can be stored, each line but blank ones and comments has an `=` and its own key, and no line may run on, unless one of the edited key does |
| SecretsFile.StorableExactlyWhen | src/boxmunge/secrets.py:177-200 | which names and values can be stored, in characters and runs of backslashes |
| SecretsFile.PlainExactlyWhen | src/boxmunge/secrets.py:142-152 | which unquoted values are literal |
| SecretsFile.SkippedExactlyWhen | src/boxmunge/secrets.py:211-212 | blank lines and comments |
| SecretsFile.InventorySays | src/boxmunge/secrets.py:235-308 | the inventory of an edit in terms of the files before and after; migrated keys are those whose line the write changed |
| SecretsFile.LeftAloneExactlyWhen | src/boxmunge/secrets.py:305-307 | unsetting a key that is not there leaves the file as it is if and only if every literal value is stored in the quoted form |
| SecretsFile.Secrets.ParseFile | src/boxmunge/secrets.py:203-232 | the parsing loop, with its refusals |
| SecretsFile.Secrets.Rewrite | src/boxmunge/secrets.py:284-308 | the file after an edit, exactly when it is refused, and the inventory of the file it leaves |
| SecretsFile.SetKey | src/boxmunge/secrets.py:311-314 | exactly when it refuses the value, the new file and its inventory |
| SecretsFile.UnsetKey | src/boxmunge/secrets.py:317-319 | exactly when it is refused, the new file and its inventory |
| Text.BeforeExactlyWhen | src/boxmunge/secrets.py:305-307 | the order the lines are written in: by the first differing character, a prefix first |
| BundleLinks.CheckMembers | src/boxmunge/bundle.py:51-92 | returns a top directory if and only if the policy accepts the archive under it, and then it is the only one |
| BundleLinks.AcceptedExactlyWhen | src/boxmunge/bundle.py:26-92 | an archive is accepted if and only if all its paths are under one top directory, no path in it is special, each symlink is relative, in place and names nothing before a `..`, and each hard link names a path under the top directory without `..` |
| BundleLinks.PlainArchivesAreAccepted | src/boxmunge/bundle.py:51-92 | any archive of plain files and directories under one top directory is accepted |
| BundleLinks.NamesOfMore | src/boxmunge/bundle.py:18-19 | the parts of a path are its names in order, without empty ones and `.` |
| BundleLinks.ClimbsAfterNameCheck | src/boxmunge/bundle.py:26-40 | the loop finds a `..` after a name if and only if there is one |
| BundleLinks.LinksCannotClimbExactlyWhen | src/boxmunge/bundle.py:51-92 | for any links an accepted archive can leave, hard links to symlinks and repeated members included, that holds at every step if and only if each link, where it lies, climbs at most to right above the top directory and then back in by its name |
| BundleLinks.LinksCannotClimb | src/boxmunge/bundle.py:51-92 | if every link lies where a symlink member put it, resolving any through any chain is inside at every step, or right above with the top name next, and what ends, ends inside |
| BundleLinks.AHardLinkCanClimb | src/boxmunge/bundle.py:82-91 | for any names, an accepted archive whose hard link takes a symlink out of its place, so that it climbs |
| BundleLinks.NeverAboveExactlyWhen | src/boxmunge/bundle.py:51-92 | the links left are resolved without ever leaving the top directory if and only if none climbs as many levels as its place is deep |
| BundleLinks.NeverAboveWhateverIsLeft | src/boxmunge/bundle.py:51-92 | the same of an archive and everything it can leave |
| BundleLinks.AReboundIsAccepted | src/boxmunge/bundle.py:51-92 | for any names, an accepted archive with a link in its place that climbs as many levels as that is deep |
| LogRotation.EveryLineStaysUntilPruned | src/boxmunge/log_rotation.py:152-228 | over any run of writes, each done or cut, a line stays until no named file has it, its archive having gone as older than every one of at least `keep` left |
| LogRotation.EachLineIsInOnePlace | src/boxmunge/log_rotation.py:152-228 | a line is at one position of one named file; after a cut merge also in the archive its file is to join, and nowhere else |
| LogRotation.WrittenOverNothingOlder | src/boxmunge/log_rotation.py:207-228 | once a line is written the active file starts with an entry of its day or later |
| LogRotation.SameDayStays | src/boxmunge/log_rotation.py:207-228 | a line of no later day than the first entry changes no archive, and the active file only grows |
| LogRotation.ArchivesAreOfEarlierDays | src/boxmunge/log_rotation.py:207-228 | every archive a run makes is of an earlier day than some line it wrote |
| LogRotation.LogDir.Emit | src/boxmunge/log_rotation.py:217-228 | what a write leaves, done, cut or refused; done, the line ends the active file the writer has open |
| LogRotation.LogDir.Archive | src/boxmunge/log_rotation.py:152-168 | the active file is moved or merged, then only the oldest archives beyond `keep` go |
| LogRotation.LogDir.LogFiles | src/boxmunge/log_rotation.py:57-73 | the archives not skipped, oldest first, then the active file; skipped are those that ended a day or more before `since`, so every line kept that is stamped at or after it is found |
| CaddyJournal.RestoreGivesBackTheAcceptedConfig | src/boxmunge/caddy_journal.py:162-232 | over any history of writes, removals, outside rewrites and commits, cut or not, a restore leaves each site as it was when first written since its entry was last dropped, or as the outside rewrite that came last; removed sites stay removed |
| CaddyJournal.InterruptedRestoreAgrees | src/boxmunge/caddy_journal.py:193-223 | restores cut anywhere and run again leave what one undisturbed restore would |
| CaddyJournal.CutWriteIsHarmlessExactlyWhen | src/boxmunge/caddy_journal.py:175-178 | exactly when a write cut between its two files is undone |
| CaddyJournal.SiteNameExactlyWhen | src/boxmunge/caddy_journal.py:41 | which names are site files |
| CaddyJournal.ACutSecondWriteKeepsTheFirst | src/boxmunge/caddy_journal.py:175-178 | a second write cut there makes a restore leave the first write, which Caddy never loaded |
| CaddyJournal.ACutCommitIsHarmlessExactlyWhen | src/boxmunge/caddy_journal.py:226-232 | exactly when a commit cut part-way leaves an accepted site safe from a later restore |
| CaddyJournal.ACutCommitCanUndoAnAcceptedSite | src/boxmunge/caddy_journal.py:226-232 | a cut commit after which a restore undoes a site Caddy accepted |
| CaddyJournal.ARepeatedRewriteIsUndone | src/boxmunge/caddy_journal.py:205-216 | a restore changes a site only if it holds boxmunge's last text, whoever wrote it, and then it does |
| CaddyJournal.CaddyDir.WriteSite | src/boxmunge/caddy_journal.py:162-178 | exactly when it refuses, and where it can stop |
| CaddyJournal.CaddyDir.RemoveSite | src/boxmunge/caddy_journal.py:181-190 | exactly when it refuses, and where it can stop |
| CaddyJournal.CaddyDir.RestoreSites | src/boxmunge/caddy_journal.py:193-223 | however cut, what a restore would leave is unchanged; finished, every site is at it, its own entries are gone, and it names the sites put back |
| CaddyJournal.CaddyDir.CommitSites | src/boxmunge/caddy_journal.py:226-232 | entries go, nothing else changes; a stop leaves a commit cut after some of them |
| RestartHold.HandOverThenReleaseRestores | src/boxmunge/restart_hold.py:20-62 | after two records held any number of times, in any order, cut anywhere, hand-over and release give every surviving container its first policy |
| RestartHold.HandOverAllowsRelease | src/boxmunge/pause.py:96-103 | after a hand-over the policies may be released, and making it again changes nothing |
| RestartHold.Project.Hold | src/boxmunge/restart_hold.py:20-36 | the record is written before any policy, keeps what it had, and all are stopped |
| RestartHold.Project.Release | src/boxmunge/restart_hold.py:39-51 | saved policies come back, others are left alone |
| RestartHold.Project.HandOver | src/boxmunge/pause.py:96-103 | the pause record takes over in one write |
| ReleaseCatalog.Order | services/version-check/release_catalog.py:119-125 | version_gt is a strict weak order, whatever the lengths |
| ReleaseCatalog.TheFirstDifferenceDecides | services/version-check/release_catalog.py:119-125 | a version is newer if and only if it has the greater number where the two, padded with zeros, first differ |
| ReleaseCatalog.OffersAreNewer | services/version-check/release_catalog.py:161-174 | where an offer and its caller first differ the offer has the greater number |
| ReleaseCatalog.BlockReason | services/version-check/release_catalog.py:140-158 | None exactly on the same major with nothing breaking up to the target; otherwise the other major, or the oldest breaking one |
| ReleaseCatalog.NoneBlockedExactlyWhenAllReachable | services/version-check/release_catalog.py:177-192 | find_blocked is None if and only if every newer security or break-fix release is reachable; else it names the newest, which is not |
| ReleaseCatalog.OneHopIsEnough | services/version-check/release_catalog.py:161-174 | after one hop the same mode has no further offer |
| ReleaseCatalog.AutoUpdateStaysOnItsPath | services/version-check/release_catalog.py:161-174 | any number of hops keeps the major version and crosses nothing breaking |
| ReleaseCatalog.ApplyHolds | services/version-check/release_catalog.py:195-217 | the offers left, and each withheld name once |
| ReleaseCatalog.BreakfixBoxIsNeverBehind | services/version-check/release_catalog.py:195-217 | no held version is offered, what is not held stays, and a break-fix box is offered at least what a security-only box is |
| ReleaseSelection.TwinsAgree | src/boxmunge/release_selection.py:121-138 | the box's selection is the service's, for every catalogue, version and mode |
| ReleaseSelection.Select | src/boxmunge/release_selection.py:121-138 | computes the service's offer |
| ReleaseSelection.FindBlockedOnBox | src/boxmunge/release_selection.py:141-156 | computes the service's find_blocked |
| RateLimiter.EveryRunIsBounded | services/version-check/request_limits.py:63-78 | over every run: at most 2*limit - 1 requests of a client in any interval a window long, at most limit in a window, at most max_clients tracked |
| RateLimiter.TheBoundIsReached | services/version-check/request_limits.py:63-78 | for every limit and window, a run that reaches 2*limit - 1 |
| RateLimiter.RefusedExactlyWhen | services/version-check/request_limits.py:63-78 | in any run a client is refused if and only if its window, not over, holds `limit` requests, or `max_clients` others are tracked, each with a window of less than two ago, and it is not |
| RateLimiter.SweepKeepsInv | services/version-check/request_limits.py:66-69 | a sweep drops no live window |
| RateLimiter.Limiter.AllowRequest | services/version-check/request_limits.py:63-78 | the table after a request, and the answer |
| CheckCounter.CountsAreConserved | services/version-check/request_limits.py:112-154 | under any interleaving of workers, table and pending add up to the records, listed versions exactly, and days stay capped |
| CheckCounter.UnlistedCountsAreExact | services/version-check/request_limits.py:131-147 | an unlisted version keeps its own exact count once it has a row, and before, as long as its day has room |
| CheckCounter.ADayIsBounded | services/version-check/request_limits.py:91-96 | at most max_versions_per_day + always_count + 1 versions a day |
| CheckCounter.Gather | services/version-check/request_limits.py:131-147 | gathering against versions looked up once a day and inserting at the end is adding one count at a time to the table |
| CheckCounter.Counter.RecordCheck | services/version-check/request_limits.py:112-118 | when it flushes, and the state after |
| FailureStore.OneReportPerReporter | services/version-check/failure_store.py:33-75 | after any reports and sweeps, the reports counted have distinct, known reporters |
| FailureStore.SweepForgetsAndExpires | services/version-check/failure_store.py:28-75 | after a sweep no reporter is known outside the window and nothing is left past retention; what is counted since any later time is unchanged |
| FailureStore.UncountedExactlyWhenAllRefused | services/version-check/failure_store.py:33-114 | a reporter is not counted if and only if every report of theirs in the window was refused, whatever the clocks |
| FailureStore.CountedExactlyWhenAWindowStartedInTime | services/version-check/failure_store.py:33-114 | with times in order, a reporter is counted if and only if the last of their reports to start a window came within the one asked about |
| FailureStore.ARefusedReportCanGoUncounted | services/version-check/failure_store.py:33-59 | a reporter whose second report was refused can be counted as none |
| FailureStore.Failures.RecordFailure | services/version-check/failure_store.py:33-59 | stores exactly when no report of this reporter is within the window |
| FailureStore.Failures.SweepRows | services/version-check/failure_store.py:62-75 | forgets, then expires |
| FailureStore.Failures.CountRecent | services/version-check/failure_store.py:108-114 | counts the version's rows within the window |

## Left out

- LinksCannotClimb: allows a stop right above the top directory, because the code accepts links that pass there (see NeverAboveExactlyWhen), and is about links lying where their member put them (see LinksCannotClimbExactlyWhen).
- RestoreGivesBackTheAcceptedConfig: is about complete writes and removals, and outside rewrites that differ from boxmunge's last text; ARepeatedRewriteIsUndone and CutWriteIsHarmlessExactlyWhen say what happens otherwise.
- KeepPrevious: takes how starting the data-dir record ended as an argument; that step is Installer.Project.EnsureRecord.
- WriteSite: does not refuse a site file that is a link, no regular file, not UTF-8 or too large to keep.
- RemoveSite: does not refuse a site file that is a link or no regular file.
- StaleReason: does not look at HEAD, which only git projects have.
- OutsideLiveIsReportedExactlyWhen: takes a live.json naming the release as its whole text.
- Power loss: what a rename or write leaves volatile before its sync. Every step is durable once it took effect; a kill or an I/O error at any step is modelled.
- Metadata names hold one text or nothing; a SHA-256 is the text it digests, JSON and YAML are records, and a compose.yml is the mounts it declares (a cut copy of it does not parse).
- Git projects (their branch of backup_source, the HEAD checks of stale_reason), legacy stages, quarantine and image clearance around a deploy.
- The states a partial copy or removal leaves deep inside one entry are any contents of that entry.
- refuse_container_owned, entries that cannot be listed, a symbolic link as compose.yml, ownership, modes, and hostile swaps.
- A release that mounts its own compose.yml read-write, and a project with no record whose containers were not started from the compose file in place (an older release of boxmunge left it so), are excluded from safe states.
- How far a container's write inside an entry and an install's change of it combine: any change to an entry counts as the loss of all the app has there.
- Stamps of set-aside directories are parameters; one already taken stops the run, as the exclusive creation does.
- The order of sorted loops where the result does not depend on it (stale entries, restored sites, counts of one flush: proved for every order).
- Secrets: UTF-8 decoding, the lock, reading boxmunge's own old keys; the lists of an inventory are sets.
- Bundle: what unpacking itself refuses (its filter and check_extracted_links, which look at the real tree), and members beneath a link member, which land elsewhere than their name says.
- Logs: the lock's timeout, file modes, clocks (lines carry their stamp); a merge cut between copy and unlink leaves lines twice, which `torn` marks, and handlers of older versions are the reason a day can have an archive already.
- Caddy: reading entries safely (an entry boxmunge did not write is refused whole), reloads, and rendering.
- Restart holds: containers created while a hold is in force are any that hold no first policy; Docker itself.
- Catalogue and GitHub parsing and validation; a version is its parsed tuple, three numbers for a catalogue entry, and a caller that does not parse is None.
- Times are integers or reals given by the caller, so float rounding is not modelled; client_key, HTTP and SQL are not; each SQL transaction is one step, and a flush whose transaction fails loses what it took.
