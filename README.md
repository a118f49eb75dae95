# Driftcade updater: a verified model

Driftcade keeps its installation current from two sources. The primary source is a
GitHub repository, polled for new commits on `main`. The fallback is an IMAP inbox,
which receives update e-mails carrying a ZIP archive and its SHA-256 checksum. Both
sources deploy through one safety engine, the update manager, which:

- takes a timestamped backup of the allowed folders (`backend`, `tools`, `config`,
  `experiences`);
- keeps only the three newest `backup_` entries;
- stages incoming files, refusing any path outside the allow-list or on the deny-list
  (`.env`, `logs`, `_backups`, `_update_staging`, `frontend`);
- validates the staging area;
- copies the staged files over the live tree;
- rolls back to the newest backup when a deployment fails.

The update runner chains the two sources. A successful GitHub check clears a failure
counter and a failed one increments it. Once three consecutive failures have
accumulated, the inbox is consulted, at most once every 300 seconds.

This project models these four components in Dafny:

- The update manager is a class over three trees: `live`, `staging` and `backups`.
- The GitHub and e-mail updaters are classes that own their checkpoint and their
  processed ids. They drive the manager through the same sequence: back up, clear
  staging, stage, deploy, roll back on failure.
- The runner is a class over its two counters.

The file system, the network, the mail server, SHA-256 and ZIP extraction are
replaced by inputs:

- A `Faults` record says which file-system step raises, and how far an interrupted folder copy or restore got.
- The GitHub answers are parameters: the latest commit (absent when it could not be
  read), the changed files, and the downloads.
- A `Mailbox` value says what each IMAP request answers.
- `hash` and `extract` are function parameters; `extract` returns `None` when
  extraction fails.

Loops of the source are methods with loop invariants, proved against pure
specification functions. Lemmas then state what the source promises about those
functions.

Modules, one per file:

- `Wrappers`: `Option`.
- `Strings`: Python `str.strip`, `lower`, `startswith`, `split`.
- `Ordering`: Python string order, descending sort.
- `PathPolicy`: the path policy.
- `FileTree`: trees, backup snapshots, restoration, eviction and validation issues.
- `UpdateManager`: the manager class.
- `UpdateFlow`: the update sequence both sources share.
- `GitHub`: the GitHub updater.
- `EmailRules`: the pure e-mail checks.
- `Email`: the e-mail updater.
- `Runner`: the update runner.

## Model

All paths are under `tools/`.

| member | source | states |
|---|---|---|
| PathPolicy.TopFolderIsFirstPart | tools/update_manager.py:52-53 | the first segment of a path is the first `/`-separated part of the path with `\` replaced by `/` |
| PathPolicy.AllowedIffTopFolderAllowed | tools/update_manager.py:42-66 | a path is allowed exactly when its first segment is one of the four allowed folders; the whole-path comparison with protected items never changes the verdict; everything else is rejected |
| PathPolicy.ListsDisjoint | tools/update_manager.py:18-22 | no protected item is an allowed folder, and none contains a separator |
| PathPolicy.ProtectedRejected | tools/update_manager.py:55-58 | a path whose first segment, or whole normalised text, is a protected item is rejected |
| PathPolicy.SeparatorsIrrelevant | tools/update_manager.py:52-53 | two paths that differ only in `/` versus `\` get the same verdict |
| PathPolicy.NormalizeKeepsVerdict | tools/update_manager.py:52 | normalising a path first does not change its verdict |
| PathPolicy.SelfTestBackendAllowed | tools/update_manager.py:314 | `backend/app.py` is allowed |
| PathPolicy.SelfTestToolsAllowed | tools/update_manager.py:315 | `tools/updater.py` is allowed |
| PathPolicy.SelfTestEnvRejected | tools/update_manager.py:316 | `.env` is rejected |
| PathPolicy.SelfTestFrontendRejected | tools/update_manager.py:317 | `frontend/index.html` is rejected |
| PathPolicy.SelfTestLogsRejected | tools/update_manager.py:318 | `logs/debug.log` is rejected |
| Ordering.SortDescendingSpec | tools/update_manager.py:115 | sorting the backup names in reverse yields every name exactly once, in strictly descending string order |
| Ordering.SortDescendingHead | tools/update_manager.py:253-259 | the first name of the reverse-sorted list is the greatest name |
| FileTree.WithinStep | tools/update_manager.py:86-91 | copying one more allowed folder into a backup adds exactly that folder's files |
| FileTree.RestoreFoldersSpec | tools/update_manager.py:265-275 | after restoring folders, a path in a restored folder holds the backup's file or is gone, and every other path keeps its live file |
| FileTree.RestoreReplacesFolder | tools/update_manager.py:269-275 | an allowed folder present in the backup becomes exactly the backup's copy |
| FileTree.PartlyRestoredSpec | tools/update_manager.py:269-275 | a folder restore that raises part-way leaves every other folder as it was, and the folder itself holding only live files `rmtree` had not removed or backup files `copytree` had copied |
| FileTree.RestoreKeepsFolder | tools/update_manager.py:265-269 | a folder the backup holds no file of, or that is not an allowed folder, is left as it is |
| FileTree.RestoreSameOutside | tools/update_manager.py:264-276 | rollback never changes a file outside the allowed folders |
| FileTree.BackupRestoreRoundTrip | tools/update_manager.py:265-275 | restoring from a snapshot brings every allowed folder that existed when the snapshot was taken back to its content then, whatever the live tree became |
| FileTree.EvictKeepsPrefix | tools/update_manager.py:115-121 | the backups surviving cleanup are exactly the first min(n, 3) names of the descending order |
| FileTree.EvictBound | tools/update_manager.py:118-121 | after cleanup exactly min(n, 3) of the n backups remain |
| FileTree.EvictKeepsGreatest | tools/update_manager.py:115-121 | every kept backup name is greater than every deleted one |
| FileTree.EvictOnlyDeletesBackups | tools/update_manager.py:116-120 | cleanup only deletes, leaves surviving entries unchanged and never touches an entry without the `backup_` prefix |
| FileTree.EvictNoop | tools/update_manager.py:118 | with at most three backups, cleanup changes nothing |
| FileTree.ChosenIsGreatest | tools/update_manager.py:249-259 | with no name (or the empty name) rollback picks the greatest backup name |
| FileTree.GreatestSurvives | tools/update_manager.py:115-121 | the greatest backup is never evicted and stays the greatest |
| FileTree.NewestBackupChosen | tools/update_manager.py:103-104 | a new backup whose name is greater than all earlier ones survives cleanup and is what a later rollback without a name restores |
| FileTree.PathIssues | tools/update_manager.py:187-196 | the issues reported for one staged file concern that file and are distinct |
| FileTree.NoIssuesIff | tools/update_manager.py:184-198 | no issue is reported exactly when every staged path is allowed and readable |
| UpdateManager.BackupName | tools/update_manager.py:79 | every backup name starts with `backup_` |
| UpdateManager.BackupFailure | tools/update_manager.py:82-110 | the step that raises is a copy of an existing allowed folder, or the metadata write |
| UpdateManager.BackupLeftover | tools/update_manager.py:90-91 | a `copytree` that raises part-way leaves copies of some of its folder's live files; one onto a folder the backup already holds leaves nothing |
| UpdateManager.Manager.constructor | tools/update_manager.py:27-40 | the manager starts over the existing live tree, staging area and backups |
| UpdateManager.Manager.CleanupOldBackups | tools/update_manager.py:112-124 | the pop-and-delete loop leaves the backups `Evict` describes; live and staging are unchanged |
| UpdateManager.Manager.CreateBackup | tools/update_manager.py:68-110 | on success the backup holds every existing allowed folder plus its metadata, old backups are evicted, and the name is returned; on a failure the partial backup stays, with the folders copied before the failing step and what that step's copy got through, nothing is evicted and `None` is returned |
| UpdateManager.CopyFolders | tools/update_manager.py:86-91 | the copy loop stops exactly at the step where `create_backup` first raises, having copied every existing allowed folder before it |
| UpdateManager.Manager.ClearStaging | tools/update_manager.py:126-135 | staging becomes empty and true is returned, or on a failure what survived is left and false is returned |
| UpdateManager.Manager.StageFile | tools/update_manager.py:137-164 | true exactly when the path is allowed and the write succeeds; then `staging[path] := content`, otherwise staging is unchanged; nothing else changes |
| UpdateManager.Manager.ValidateStaging | tools/update_manager.py:166-198 | empty staging gives `(false, [NothingStaged])`; otherwise one issue per protected and per unreadable staged file, each once, and valid iff there are none |
| UpdateManager.Manager.CopyStaged | tools/update_manager.py:214-228 | every staged file is copied over the live tree and counted; the first copy that raises stops the loop with the files copied so far in place |
| UpdateManager.Manager.DeployStagedFiles | tools/update_manager.py:200-236 | failed validation returns `(false, 0, …)` with nothing changed; otherwise success iff no copy raises, and then every staged file is live with its content, the count is the number of staged files, staging is cleared and other live files are unchanged |
| UpdateManager.Manager.RestoreFrom | tools/update_manager.py:264-278 | each allowed folder the backup holds replaces the live folder, in order; at the first failure the folders before it are restored, the failing folder is as far as its removal or copy got, and the rest are untouched |
| UpdateManager.RestoreUpTo | tools/update_manager.py:264-276 | the restore loop stops exactly at the first allowed folder the backup holds whose restore raises, with every folder before it restored |
| UpdateManager.Manager.Rollback | tools/update_manager.py:238-281 | no backups gives `NoBackups` and a missing name gives `BackupNotFound`, both with nothing changed; otherwise the chosen backup is restored, and one failure aborts the remaining folders, leaving the failing one part-way restored |
| UpdateManager.RollbackCutShort | tools/update_manager.py:264-278 | after a rollback cut short at one folder, earlier folders the backup holds are the backup's, later folders are the live ones, and the failing folder holds only live or backup files |
| UpdateFlow.StageAllSpec | tools/github_updater.py:271-282 | the staging loop adds exactly the accepted paths, keeps every other staged file, and counts a success iff some path was accepted |
| UpdateFlow.StagedContent | tools/github_updater.py:276-278 | a staged path holds the content its entries carry |
| UpdateFlow.DeployStaysInside | tools/update_manager.py:218-227 | copying allowed paths changes nothing outside the allowed folders |
| UpdateFlow.RollbackStaysInside | tools/update_manager.py:264-278 | a rollback, complete or cut short, changes nothing outside the allowed folders |
| UpdateFlow.DeployOrRollBack | tools/github_updater.py:289-297 | deploy succeeds exactly when staging is deployable, and then the staged files are live; otherwise the newest backup is rolled back over what was copied, which is nothing when validation failed and never a file whose copy raised; outside the allowed folders nothing changes |
| UpdateFlow.MetadataOutsideFolders | tools/update_manager.py:99 | the backup's metadata file lies outside every allowed folder |
| UpdateFlow.BackupFolder | tools/update_manager.py:86-101 | each allowed folder of a new backup is the live tree's copy of it |
| UpdateFlow.FailedUpdateRestored | tools/github_updater.py:294-296 | after a failed deployment, the rollback to the backup just taken restores every allowed folder that existed before the update |
| UpdateFlow.UpdateStaysInside | tools/github_updater.py:245-297 | an update, however it ends, never changes a file outside the allowed folders |
| UpdateFlow.UpdateDeploysStaged | tools/github_updater.py:284-292 | a deployed update leaves every staged file live with its staged content and every other live file unchanged, and something was staged |
| UpdateFlow.UpdateRollsBack | tools/github_updater.py:291-297 | when deployment fails and rollback does not raise, every allowed folder that existed before the update has its earlier content |
| UpdateFlow.UpdateKeepsNewestBackup | tools/github_updater.py:258-263 | after a successful backup at most three backups remain, and the new one is among them and is the rollback target |
| GitHub.AllowedFilesMembers | tools/github_updater.py:233-234 | a changed file is kept exactly when the path policy allows it |
| GitHub.AllowedFilesAppend | tools/github_updater.py:234 | filtering distributes over concatenation, so the kept files keep their original order |
| GitHub.AllowedFilesIdempotent | tools/github_updater.py:234 | filtering an already filtered list changes nothing |
| GitHub.CheckNeverSkipsUpdates | tools/github_updater.py:236-240 | the checkpoint moves only to the latest commit, and only when none of the changed files reported for it is allowed; a check never moves past a commit whose reported changes include an allowed file |
| GitHub.FailedRequestSkipsCommit | tools/github_updater.py:186-191 | a failed compare request, reported as no changed files, moves the checkpoint past the latest commit |
| GitHub.Downloaded | tools/github_updater.py:272-282 | each entry staged is a file that downloaded, with its downloaded text |
| GitHub.DownloadsStaged | tools/github_updater.py:274-278 | every staged file of an update holds the text downloaded for it |
| GitHub.Updater.constructor | tools/github_updater.py:33-50 | the updater starts from the saved checkpoint |
| GitHub.Updater.CheckForUpdates | tools/github_updater.py:211-243 | no latest commit gives `(false, None, [])`; an unchanged commit gives `(false, sha, [])`; otherwise the result is the allowed changed files, in order, and the checkpoint moves only when there are none |
| GitHub.Updater.StageDownloads | tools/github_updater.py:270-282 | the download loop stages what `StageAll` describes and counts the accepted files |
| GitHub.Updater.DeployUpdates | tools/github_updater.py:245-297 | an empty list succeeds with nothing changed; otherwise the files and outcome are those of the update sequence over the downloaded files, where a failed deployment has copied no file whose copy raised |
| GitHub.Updater.RunOnce | tools/github_updater.py:299-317 | the checkpoint moves to the latest commit only after a successful deployment, or as the check moved it; with no updates nothing else changes |
| EmailRules.SubjectValidIff | tools/email_updater.py:123-125 | a subject is valid exactly when, once leading whitespace is dropped, it starts with `[DRIFTCADE-UPDATE]` |
| EmailRules.SelfTestPrefixWithText | tools/email_updater.py:404 | `[DRIFTCADE-UPDATE] Emergency fix` is valid |
| EmailRules.SelfTestBarePrefix | tools/email_updater.py:405 | `[DRIFTCADE-UPDATE]` is valid |
| EmailRules.SelfTestReplyRejected | tools/email_updater.py:406 | `Re: [DRIFTCADE-UPDATE] Fix` is not valid |
| EmailRules.SelfTestSpamRejected | tools/email_updater.py:407 | `Random spam` is not valid |
| EmailRules.AngleAddress | tools/email_updater.py:116-119 | the address found is non-empty and holds no `>`; none is found without a `<` |
| EmailRules.AngleAddressOf | tools/email_updater.py:116-119 | `Name <addr>` followed by anything yields exactly `addr` |
| EmailRules.LowerAngleAddress | tools/email_updater.py:117-121 | finding the address commutes with lower-casing the header |
| EmailRules.NamedSenderAllowed | tools/email_updater.py:110-121 | a `Name <addr>` sender is trusted exactly when the list is non-empty and holds `addr` lower-cased |
| EmailRules.BareSenderAllowed | tools/email_updater.py:110-121 | a sender without `<` is trusted exactly when the list is non-empty and holds it lower-cased |
| EmailRules.SenderCaseInsensitive | tools/email_updater.py:117-121 | the case of the `From` header never changes the verdict |
| EmailRules.KeepSendersMembers | tools/email_updater.py:57-58 | an allow-list entry is exactly a non-blank comma-separated piece, stripped and lower-cased |
| EmailRules.ParseSendersEntries | tools/email_updater.py:57-58 | every parsed entry is non-empty, lower-case, stripped and comma-free |
| EmailRules.ParseSendersRoundTrip | tools/email_updater.py:57-58 | parsing the comma-joined list of well-formed entries gives the entries back |
| EmailRules.EnvLineIgnored | tools/email_updater.py:77 | lines without `=` and comment lines define nothing |
| EmailRules.EnvLineRoundTrip | tools/email_updater.py:76-79 | `KEY=VALUE` yields its key and value, split at the first `=`, even when the value holds `=` |
| EmailRules.ParseEnvLastWins | tools/email_updater.py:74-79 | a key is set iff some line defines it, and it holds the value of the last line that defines it |
| EmailRules.ChecksumLine | tools/email_updater.py:260-263 | in the `hash  filename` format only the hash is compared with the digest, case-insensitively |
| EmailRules.ScanUndecodable | tools/email_updater.py:249-250 | the walk over parts fails exactly when some checksum part does not decode |
| EmailRules.ScanZip | tools/email_updater.py:245-246 | the archive is the payload of the last `.zip` part, or absent when there is none |
| EmailRules.ScanChecksum | tools/email_updater.py:249-250 | the checksum is the text of the last `.sha256`/`.checksum` part, or absent when there is none |
| EmailRules.VerifiedIsChecked | tools/email_updater.py:253-266 | a verified archive is non-empty, attached as a `.zip` part, and its digest matches the first token of an attached checksum |
| EmailRules.ArchiveWithChecksum | tools/email_updater.py:256-264 | a message with an archive and a `hash  filename` checksum is verified iff the hash matches the digest ignoring case, and otherwise is a mismatch |
| EmailRules.CandidatesMembers | tools/email_updater.py:178-208 | a candidate is an unseen, unprocessed message whose headers were fetched and pass both checks, reported with those headers |
| EmailRules.CandidatesAppend | tools/email_updater.py:178-208 | candidates keep the inbox order |
| EmailRules.NoCandidates | tools/email_updater.py:178-205 | an inbox with no eligible message yields no candidates |
| EmailRules.FirstCandidate | tools/email_updater.py:178-208 | the first candidate is the first eligible message of the inbox |
| Strings.StripSpec | tools/email_updater.py:76 | `strip` keeps the piece between leading and trailing whitespace, which neither starts nor ends with whitespace |
| Strings.FirstWord | tools/email_updater.py:261 | the first whitespace-separated token of `w + gap + rest` is `w` |
| Email.ProcessStaysInside | tools/email_updater.py:215-272 | processing a message never changes a file outside the allowed folders |
| Email.ChangeNeedsVerified | tools/email_updater.py:253-269 | a message that changes any file was fetched and passed every check |
| Email.ProcessedNeverRetried | tools/email_updater.py:376-377 | once its id is processed, a message is never a candidate again |
| Email.SaveReloads | tools/email_updater.py:97-108 | the saved ids are at most 100 processed ids, and all of them when there are at most 100 |
| Email.LoadEnvConfig | tools/email_updater.py:64-83 | the line loop builds the map `ParseEnv` describes; no `.env` gives the empty map |
| Email.FindAttachments | tools/email_updater.py:239-251 | the walk loop finds what `Scan` describes, stopping at an undecodable checksum |
| Email.EmailUpdater.constructor | tools/email_updater.py:34-62 | given settings win over `.env`; the allow-list is parsed from `.env` when none is given; the processed ids are those of the state file |
| Email.EmailUpdater.CheckForUpdates | tools/email_updater.py:153-213 | the loop returns `Candidates` of the unseen ids, or nothing when the search fails |
| Email.EmailUpdater.ProcessUpdateEmail | tools/email_updater.py:215-272 | a rejected message changes nothing; a verified archive goes through the update sequence, where a failed deployment has copied no file whose copy raised; success iff deployed |
| Email.EmailUpdater.DeployZip | tools/email_updater.py:274-350 | the files and outcome are those of the update sequence over the extracted files, where a failed deployment has copied no file whose copy raised; success iff deployed |
| Email.EmailUpdater.StageEntries | tools/email_updater.py:309-329 | the staging loop stages what `StageAll` describes and counts the accepted files |
| Email.EmailUpdater.SaveProcessedIds | tools/email_updater.py:97-108 | the file gets at most 100 distinct processed ids, all of them when there are at most 100; a failed write leaves it unchanged |
| Email.EmailUpdater.RunOnce | tools/email_updater.py:352-386 | no connection or no candidate changes nothing; otherwise only the first candidate is processed and its id is marked processed whatever the outcome |
| Runner.FailCountIsTrailingFailures | tools/run_updater.py:151-164 | the failure counter is the number of primary failures since the last success |
| Runner.ConsultNeedsConsecutiveFailures | tools/run_updater.py:164-168 | from a new runner the fallback is consulted only after at least three consecutive primary failures |
| Runner.LastCheckIsLastConsultation | tools/run_updater.py:168-173 | `last_email_check` is the time of the last consultation, or its initial value |
| Runner.ConsultationsSpaced | tools/run_updater.py:171-173 | two consultations are at least 300 seconds apart |
| Runner.SuccessResets | tools/run_updater.py:151-153 | a successful primary check clears the counter and never consults the fallback |
| Runner.UnreadableRepositoryCountsAsSuccess | tools/run_updater.py:108-110 | an unreadable latest commit counts as primary success, without update and without change |
| Runner.PrimaryStaysInside | tools/run_updater.py:95-124 | a primary check never changes a file outside the allowed folders |
| Runner.UpdateRunner.constructor | tools/run_updater.py:35-53 | both updaters work on the one project through the same manager, and both counters start at zero |
| Runner.UpdateRunner.CheckGithub | tools/run_updater.py:95-124 | success iff there was no update or it deployed; the checkpoint moves to the latest commit only after a deployment; no file whose copy raised counts as copied |
| Runner.UpdateRunner.CheckEmail | tools/run_updater.py:126-138 | success unless the fallback's run raises; the update flag is passed through |
| Runner.UpdateRunner.RunOnce | tools/run_updater.py:140-183 | the counters follow `Step`; the fallback is consulted iff the gate opens; only its update makes a failed cycle report one; without a consultation the e-mail state is unchanged and the files are those of the primary check, whose copied files exclude failed copies; each updater's backup has its own timestamp |
| Runner.UpdateRunner.RunSingleCheck | tools/run_updater.py:210-215 | one cycle over the shared manager, returning whether an update was deployed |

## Left out

- Network, mailbox and file-system I/O are parameters of the methods, and their failures are `Faults` fields. This covers HTTP requests, IMAP `select`/`search`/`fetch`/`store`/`logout`, MIME parsing, temporary directories, `mkdir` and JSON reading and writing.
- SHA-256 is the parameter `hash`. ZIP extraction is the parameter `extract`, which yields the files or fails.
- `_deploy_zip` at tools/email_updater.py:302 opens a ZIP file over an empty temporary file before the real extraction. The model claims only that extraction may fail: it does not claim that it always does.
- UTF-8 decoding of extracted files is not modelled: each extracted file arrives already as `Text` or `Binary`.
- The UTF-8 decoding of a checksum attachment is part of the mailbox input, as the part's `text` field.
- A read error on an extracted file is not modelled.
- An IMAP exception in the middle of `check_for_updates` returns the candidates found so far. The model treats only a failed search (no candidates) or a failed header fetch (message skipped).
- A read error in the middle of `.env` keeps the lines read so far. The model reads the whole file or none.
- A partial write of the state file is not modelled: a save either fails and leaves the old ids or writes the new ones.
- Both state files live in `_update_staging`, which `clear_staging` empties. The model keeps the saved checkpoint and saved ids apart from the staging tree.
- An unexpected exception in `check_github`, reported as a GitHub error, is not modelled. Failures come only from the modelled steps.
- Time is a whole number of seconds, not a float. Backup timestamps are strings given by the caller.
- The order of a Python `set`, used when saving processed ids, is not modelled. Only the bound, membership and distinctness are claimed.
- `run_forever`, `log`, logging setup, printing, the command line, `get_file_hash`, `_load_token_from_env`, `_api_request`, `_download_raw_file`, `get_latest_commit` and `get_changed_files` are left out. They are loops, I/O or network calls, and their results are inputs of the model.
- `..` segments and case-insensitive file names (Windows) are not modelled: paths are compared literally.
- On Windows, `sorted` orders backup names case-insensitively. The model uses code-point order.
- Plain files inside `_backups` are not modelled: every entry of the backup store is a directory.
- A failure of `rmtree` during cleanup is not modelled: cleanup always completes.
- A metadata write that raises leaves no metadata file in the partial backup.
- FileTree.HasFolder: a tree records files only, so an empty folder does not exist in the model.
- UpdateManager.Manager.CreateBackup: an empty allowed folder is not copied into the backup, as it does not exist in the model. A backup already holding that folder only as an empty directory does not make `copytree` raise.
- UpdateManager.Manager.RestoreFrom: a folder the backup holds only as an empty directory is not restored. The source removes the live folder then, deleting files a failed deployment added to it; the model leaves them.
- UpdateManager.Manager.Rollback: restores through `RestoreFrom`, so an empty folder in the backup leaves the live folder unchanged instead of emptying it.
- FileTree.RestoreKeepsFolder: holds for a folder of which the backup has no file. A backed-up empty folder is one, so the lemma does not apply to what the source does with it.
- GitHub.CheckNeverSkipsUpdates: speaks of the changed files as reported. `get_changed_files` reports a failed compare or tree request as the empty list, so the check then moves past the latest commit even if it changed allowed files. `FailedRequestSkipsCommit` states this.
- The metadata JSON of a backup is a string given by the caller.
- `copy2` metadata preservation is not modelled.
- Lower-casing is ASCII only. Python's `str.lower` also maps non-ASCII letters.
- Runner.UpdateRunner.CheckEmail: does not restate the e-mail updater's effect on the inbox and the files. That effect is stated by Email.EmailUpdater.RunOnce, whose postconditions the call uses.
- Runner.UpdateRunner.RunOnce: when the fallback is consulted, it states the counters, the report kind and the update flag. It does not restate the e-mail updater's effect on files and ids, which Email.EmailUpdater.RunOnce states.
- PathPolicy.IsPathAllowed: the first segment is computed by `TopFolder`, a scan up to the first separator, instead of splitting the normalised path. `TopFolderIsFirstPart` proves the two equal.
- EmailRules.Scan: keeps the checksum text unstripped and strips it where it is used. `process_update_email` strips it when it is read; the results are the same.
