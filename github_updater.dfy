/**
 * The primary update source: poll the repository's branch head, work out
 * which changed files an update may write, and deploy them through the
 * manager. The network is replaced by its answers: the latest commit id
 * (absent when the request failed), the changed-file list, and the text of
 * each file that downloaded.
 */
module GitHub {
  import opened Wrappers
  import opened Strings
  import opened PathPolicy
  import opened FileTree
  import opened UpdateManager
  import opened UpdateFlow

  /** The description of every backup this updater takes. */
  const Description: string := "github"

  /** `[f for f in changed if is_path_allowed(f)]`. */
  function AllowedFiles(changed: seq<string>): seq<string> {
    if changed == [] then []
    else (if IsPathAllowed(changed[0]) then [changed[0]] else []) + AllowedFiles(changed[1..])
  }

  /** A file is kept exactly when it changed and the policy allows it. */
  lemma {:induction false} AllowedFilesMembers(changed: seq<string>)
    ensures forall f :: f in AllowedFiles(changed) <==> f in changed && IsPathAllowed(f)
  {
    if changed != [] {
      AllowedFilesMembers(changed[1..]);
      assert forall f :: f in changed <==> f == changed[0] || f in changed[1..];
    }
  }

  /** Filtering respects concatenation, so the kept files stay in their original order. */
  lemma {:induction false} AllowedFilesAppend(a: seq<string>, b: seq<string>)
    ensures AllowedFiles(a + b) == AllowedFiles(a) + AllowedFiles(b)
  {
    if a != [] {
      assert (a + b)[1..] == a[1..] + b;
      AllowedFilesAppend(a[1..], b);
    } else {
      assert a + b == b;
    }
  }

  /** Filtering an already filtered list changes nothing. */
  lemma {:induction false} AllowedFilesIdempotent(changed: seq<string>)
    ensures AllowedFiles(AllowedFiles(changed)) == AllowedFiles(changed)
  {
    if changed != [] {
      var head := if IsPathAllowed(changed[0]) then [changed[0]] else [];
      AllowedFilesIdempotent(changed[1..]);
      AllowedFilesAppend(head, AllowedFiles(changed[1..]));
      assert AllowedFiles(head) == head by {
        if head != [] {
          assert head[1..] == [];
        }
      }
    }
  }

  /** What `check_for_updates` reports for the checkpoint `last`. */
  predicate HasUpdates(last: Option<string>, latest: Option<string>, changed: seq<string>) {
    Truthy(latest) && latest != last && AllowedFiles(changed) != []
  }

  /** The checkpoint after `check_for_updates`. */
  function AfterCheck(last: Option<string>, latest: Option<string>, changed: seq<string>): Option<string> {
    if Truthy(latest) && latest != last && AllowedFiles(changed) == [] then latest else last
  }

  /**
   * The checkpoint moves only to the latest commit, and only when none of
   * the changed files reported for it is one an update may write: a check
   * never moves past a commit whose reported changes include an allowed
   * file.
   */
  lemma CheckNeverSkipsUpdates(last: Option<string>, latest: Option<string>, changed: seq<string>)
    ensures AfterCheck(last, latest, changed) != last ==>
      && Truthy(latest) && AfterCheck(last, latest, changed) == latest
      && !HasUpdates(last, latest, changed)
      && forall f :: f in changed ==> !IsPathAllowed(f)
    ensures HasUpdates(last, latest, changed) ==> AfterCheck(last, latest, changed) == last
  {
    AllowedFilesMembers(changed);
  }

  /**
   * `get_changed_files` reports a failed compare or tree request as the
   * empty list, so the check then moves the checkpoint past the latest
   * commit whatever that commit changed.
   */
  lemma FailedRequestSkipsCommit(last: Option<string>, latest: Option<string>)
    requires Truthy(latest) && latest != last
    ensures AfterCheck(last, latest, []) == latest
    ensures !HasUpdates(last, latest, [])
  {
  }

  /** The files that downloaded, as entries to stage, in list order. */
  function Downloaded(files: seq<string>, downloads: map<string, string>): (es: seq<Entry>)
    ensures forall i :: 0 <= i < |es| ==> es[i].path in downloads && es[i].content == Text(downloads[es[i].path])
    decreases |files|
  {
    if files == [] then []
    else
      var last := files[|files| - 1];
      Downloaded(files[..|files| - 1], downloads) + if last in downloads then [Entry(last, Text(downloads[last]))] else []
  }

  /** One more file of the list: its entry is added when it downloaded. */
  lemma DownloadedStep(files: seq<string>, downloads: map<string, string>, i: nat)
    requires i < |files|
    ensures files[i] in downloads ==>
      Downloaded(files[..i + 1], downloads) == Downloaded(files[..i], downloads) + [Entry(files[i], Text(downloads[files[i]]))]
    ensures files[i] !in downloads ==> Downloaded(files[..i + 1], downloads) == Downloaded(files[..i], downloads)
  {
    assert files[..i + 1][..i] == files[..i];
    var es := Downloaded(files[..i], downloads);
    assert es + [] == es;
  }

  /** Every staged file of an update holds the text downloaded for it. */
  lemma DownloadsStaged(s: Tree, files: seq<string>, downloads: map<string, string>, writeFails: set<string>)
    ensures var es := Downloaded(files, downloads);
      forall p :: p in AcceptedPaths(es, writeFails) ==>
        p in downloads && p in StageAll(s, es, writeFails) && StageAll(s, es, writeFails)[p] == Text(downloads[p])
  {
    var es := Downloaded(files, downloads);
    forall p | p in AcceptedPaths(es, writeFails)
      ensures p in downloads && p in StageAll(s, es, writeFails) && StageAll(s, es, writeFails)[p] == Text(downloads[p])
    {
      var j :| 0 <= j < |es| && Accepted(es[j].path, writeFails) && es[j].path == p;
      StagedContent(s, es, writeFails, p, Text(downloads[p]));
    }
  }

  /** What `deploy_updates` returns as its message. */
  datatype DeployMessage = NoFilesToUpdate | Finished(outcome: Outcome)

  /** What `run_once` returns as its message. */
  datatype RunMessage = NoUpdatesAvailable | Deployment(message: DeployMessage)

  class Updater {
    /** `last_commit_sha`: the last commit deployed or passed over. */
    var lastCommitSha: Option<string>
    /** The update manager of the project. */
    const manager: Manager

    /** The updater over `manager`, starting from the saved checkpoint. */
    constructor(manager: Manager, saved: Option<string>)
      ensures this.manager == manager && lastCommitSha == saved
    {
      this.manager := manager;
      lastCommitSha := saved;
    }

    /**
     * `check_for_updates`: compare the latest commit with the checkpoint and
     * keep the changed files the policy allows. A latest commit with nothing
     * deployable moves the checkpoint at once.
     */
    method CheckForUpdates(latest: Option<string>, changed: seq<string>)
      returns (hasUpdates: bool, sha: Option<string>, files: seq<string>)
      modifies this
      ensures !Truthy(latest) ==> sha.None?
      ensures Truthy(latest) ==> sha == latest
      ensures hasUpdates <==> HasUpdates(old(lastCommitSha), latest, changed)
      ensures files == if hasUpdates then AllowedFiles(changed) else []
      ensures lastCommitSha == AfterCheck(old(lastCommitSha), latest, changed)
    {
      if !Truthy(latest) {
        return false, None, [];
      }
      if latest == lastCommitSha {
        return false, latest, [];
      }
      var allowed := AllowedFiles(changed);
      if allowed == [] {
        lastCommitSha := latest;
        return false, latest, [];
      }
      return true, latest, allowed;
    }

    /**
     * `deploy_updates`: nothing to do for an empty list; otherwise back up,
     * clear staging, download and stage each file, and deploy, rolling back
     * if the deployment fails.
     */
    method DeployUpdates(files: seq<string>, downloads: map<string, string>, timestamp: string, metadata: string,
                         faults: Faults)
      returns (success: bool, message: DeployMessage, ghost deployed: set<string>, ghost error: DeployError)
      modifies manager
      ensures files == [] ==>
        && success && message == NoFilesToUpdate
        && manager.live == old(manager.live) && manager.staging == old(manager.staging)
        && manager.backups == old(manager.backups)
      ensures files != [] ==>
        && message.Finished?
        && (success <==> message.outcome.Deployed?)
        && (Files(manager.live, manager.staging, manager.backups), message.outcome)
           == UpdateResult(Files(old(manager.live), old(manager.staging), old(manager.backups)),
                           BackupName(timestamp, Description), metadata, Some(Downloaded(files, downloads)), faults,
                           deployed, error)
      ensures forall p :: p in deployed ==> IsPathAllowed(p)
      ensures deployed !! faults.copyFails
    {
      deployed := {};
      error := CopyFailed("");
      if files == [] {
        return true, NoFilesToUpdate, deployed, error;
      }
      ghost var s0 := Files(manager.live, manager.staging, manager.backups);
      ghost var name := BackupName(timestamp, Description);
      ghost var es := Downloaded(files, downloads);
      var backup := manager.CreateBackup(timestamp, Description, metadata, faults.backup, faults.backupCopied);
      if backup.None? {
        assert (Files(manager.live, manager.staging, manager.backups), BackupAborted)
          == UpdateResult(s0, name, metadata, Some(es), faults, deployed, error);
        return false, Finished(BackupAborted), deployed, error;
      }
      assert manager.backups == AfterBackup(s0.live, s0.backups, name, metadata);
      var _ := manager.ClearStaging(faults.clearBefore);
      var stagedCount := StageDownloads(files, downloads, faults.writeFails);
      ghost var live1, staged, backups1 := manager.live, manager.staging, manager.backups;
      assert UpdateResult(s0, name, metadata, Some(es), faults, deployed, error)
        == DeployResult(live1, staged, backups1, stagedCount, faults, deployed, error);
      if stagedCount == 0 {
        return false, Finished(NoneStaged), deployed, error;
      }
      var ok, count, failure;
      ok, count, failure, deployed := DeployOrRollBack(manager, faults.unreadable, faults.copyFails,
                                                       faults.clearAfter, faults.rollback, faults.rollbackLeft);
      if ok {
        return true, Finished(Deployed(count)), deployed, error;
      }
      error := failure.value;
      assert UpdateResult(s0, name, metadata, Some(es), faults, deployed, error)
        == DeployResult(live1, staged, backups1, stagedCount, faults, deployed, error);
      return false, Finished(DeploymentFailed(failure.value)), deployed, error;
    }

    /**
     * The download loop of `deploy_updates`: stage every file that
     * downloaded, counting the files `stage_file` accepted.
     */
    method StageDownloads(files: seq<string>, downloads: map<string, string>, writeFails: set<string>)
      returns (stagedCount: nat)
      modifies manager
      ensures manager.staging == StageAll(old(manager.staging), Downloaded(files, downloads), writeFails)
      ensures stagedCount == StagedCount(Downloaded(files, downloads), writeFails)
      ensures manager.live == old(manager.live) && manager.backups == old(manager.backups)
    {
      stagedCount := 0;
      var i := 0;
      while i < |files|
        invariant 0 <= i <= |files|
        invariant manager.staging == StageAll(old(manager.staging), Downloaded(files[..i], downloads), writeFails)
        invariant stagedCount == StagedCount(Downloaded(files[..i], downloads), writeFails)
        invariant manager.live == old(manager.live) && manager.backups == old(manager.backups)
      {
        var filePath := files[i];
        ghost var es := Downloaded(files[..i], downloads);
        DownloadedStep(files, downloads, i);
        if filePath in downloads {
          var content := Text(downloads[filePath]);
          StageStep(old(manager.staging), es, Entry(filePath, content), writeFails);
          var ok := manager.StageFile(filePath, content, filePath in writeFails);
          if ok {
            stagedCount := stagedCount + 1;
          }
        }
        i := i + 1;
      }
      assert files[..i] == files;
    }

    /**
     * `run_once`: check, deploy what the check found, and move the
     * checkpoint to the latest commit only when the deployment succeeded.
     */
    method RunOnce(latest: Option<string>, changed: seq<string>, downloads: map<string, string>, timestamp: string,
                   metadata: string, faults: Faults)
      returns (updated: bool, message: RunMessage, ghost deployed: set<string>, ghost error: DeployError)
      modifies this, manager
      ensures lastCommitSha == if updated then latest else AfterCheck(old(lastCommitSha), latest, changed)
      ensures !HasUpdates(old(lastCommitSha), latest, changed) ==>
        && !updated && message == NoUpdatesAvailable
        && manager.live == old(manager.live) && manager.staging == old(manager.staging)
        && manager.backups == old(manager.backups)
      ensures HasUpdates(old(lastCommitSha), latest, changed) ==>
        && message.Deployment? && message.message.Finished?
        && (updated <==> message.message.outcome.Deployed?)
        && (Files(manager.live, manager.staging, manager.backups), message.message.outcome)
           == UpdateResult(Files(old(manager.live), old(manager.staging), old(manager.backups)),
                           BackupName(timestamp, Description), metadata,
                           Some(Downloaded(AllowedFiles(changed), downloads)), faults, deployed, error)
      ensures forall p :: p in deployed ==> IsPathAllowed(p)
      ensures deployed !! faults.copyFails
    {
      deployed := {};
      error := CopyFailed("");
      var hasUpdates, sha, files := CheckForUpdates(latest, changed);
      if !hasUpdates {
        return false, NoUpdatesAvailable, deployed, error;
      }
      var success, deployMessage;
      success, deployMessage, deployed, error := DeployUpdates(files, downloads, timestamp, metadata, faults);
      if success {
        lastCommitSha := sha;
      }
      return success, Deployment(deployMessage), deployed, error;
    }
  }
}
