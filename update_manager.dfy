/**
 * The update manager: the live project tree, the staging area and the
 * backup directory as the fields of one object, with the operations that
 * back up, stage, validate, deploy and roll back. Failures of the file
 * system are inputs: each method takes the step or the paths at which an
 * operating-system error is raised.
 */
module UpdateManager {
  import opened Wrappers
  import opened Strings
  import opened Ordering
  import opened PathPolicy
  import opened FileTree

  /** The metadata file written into every backup. */
  const MetadataFile: string := "backup_info.json"

  /** `backup_{timestamp}_{description}`. */
  function BackupName(timestamp: string, description: string): (name: string)
    ensures StartsWith(name, BackupPrefix)
  {
    BackupPrefix + timestamp + "_" + description
  }

  /**
   * The step of `create_backup` that raises, looking from step `i` on. Step
   * `j < |AllowedFolders|` copies allowed folder `j` when it exists in the
   * live tree; it raises when a fault is injected there or when the backup
   * already holds that folder (`copytree` refuses an existing destination).
   * Step `|AllowedFolders|` writes the metadata file.
   */
  function BackupFailure(live: Tree, base: Tree, fault: Option<nat>, i: nat): (r: Option<nat>)
    ensures r.Some? ==> i <= r.value <= |AllowedFolders|
    ensures r.Some? && r.value < |AllowedFolders| ==> HasFolder(live, AllowedFolders[r.value])
    decreases |AllowedFolders| - i
  {
    if i >= |AllowedFolders| then
      if i == |AllowedFolders| && fault == Some(i) then Some(i) else None
    else if HasFolder(live, AllowedFolders[i]) && (fault == Some(i) || HasFolder(base, AllowedFolders[i])) then Some(i)
    else BackupFailure(live, base, fault, i + 1)
  }

  /** A step that does not raise passes the search on to the next one. */
  lemma BackupFailureSkip(live: Tree, base: Tree, fault: Option<nat>, i: nat)
    requires i < |AllowedFolders|
    requires !HasFolder(live, AllowedFolders[i]) || (fault != Some(i) && !HasFolder(base, AllowedFolders[i]))
    ensures BackupFailure(live, base, fault, i) == BackupFailure(live, base, fault, i + 1)
  {
  }

  /** What a backup of that name holds before `create_backup` copies anything into it. */
  function BackupBase(backups: Store, name: string): Tree {
    if name in backups then backups[name] else map[]
  }

  /**
   * What the failing step `k` of `create_backup` leaves in the backup
   * besides the folders copied before it: the files `copied` of the folder
   * whose `copytree` raised part-way. A `copytree` onto a folder the backup
   * already holds raises before copying anything, and a metadata write that
   * raises adds nothing.
   */
  function BackupLeftover(live: Tree, base: Tree, k: nat, copied: set<string>): (r: Tree)
    ensures forall p :: p in r ==> p in live && r[p] == live[p] && p in copied
    ensures r != map[] ==>
      && k < |AllowedFolders| && !HasFolder(base, AllowedFolders[k])
      && forall p :: p in r ==> TopFolder(p) == AllowedFolders[k]
  {
    if k < |AllowedFolders| && !HasFolder(base, AllowedFolders[k]) then Restrict(FolderContents(live, AllowedFolders[k]), copied)
    else map[]
  }

  /** The backup directory after `create_backup` succeeded: the new backup in place, old ones evicted. */
  function AfterBackup(live: Tree, backups: Store, name: string, metadata: string): Store {
    Evict(backups[name := (BackupBase(backups, name) + Snapshot(live))[MetadataFile := Text(metadata)]])
  }

  /** The step of `rollback` that raises: restoring an allowed folder the backup holds. */
  function RollbackFailure(b: Tree, fault: Option<nat>): (r: Option<nat>)
    ensures r.Some? ==> r.value < |AllowedFolders| && HasFolder(b, AllowedFolders[r.value])
  {
    if fault.Some? && fault.value < |AllowedFolders| && HasFolder(b, AllowedFolders[fault.value]) then fault
    else None
  }

  /**
   * The live tree after `rollback(name)`: unchanged when there is nothing to
   * restore from, otherwise every allowed folder the chosen backup holds is
   * restored, up to the first one that raises, which `partial` says how far
   * its removal or copy got.
   */
  function RollbackEffect(live: Tree, backups: Store, name: Option<string>, fault: Option<nat>,
                          partial: PartialRestore): Tree {
    var chosen := ChosenBackup(name, backups);
    if chosen.None? || chosen.value !in backups then live
    else
      var b := backups[chosen.value];
      match RollbackFailure(b, fault)
      case None => Restore(live, b)
      case Some(_) => CutShort(live, b, fault, partial)
  }

  /** The tree a rollback from `b` leaves when it is cut short at the failing step. */
  function CutShort(live: Tree, b: Tree, fault: Option<nat>, partial: PartialRestore): Tree
    requires RollbackFailure(b, fault).Some?
  {
    var i := RollbackFailure(b, fault).value;
    PartlyRestored(RestoreFolders(live, b, AllowedFolders[..i]), b, AllowedFolders[i], partial)
  }

  /** The allowed folders are distinct: folder `i` is not among those before it. */
  lemma FolderNotBefore(i: nat)
    requires i < |AllowedFolders|
    ensures AllowedFolders[i] !in AllowedFolders[..i]
    ensures forall g :: g in AllowedFolders[..i + 1] <==> g in AllowedFolders[..i] || g == AllowedFolders[i]
  {
    assert AllowedFolders[..i + 1] == AllowedFolders[..i] + [AllowedFolders[i]];
  }

  /** A rollback cut short has restored the earlier folders the backup holds. */
  lemma CutShortEarlier(live: Tree, b: Tree, fault: Option<nat>, partial: PartialRestore, k: string)
    requires RollbackFailure(b, fault).Some?
    requires TopFolder(k) in AllowedFolders[..RollbackFailure(b, fault).value] && HasFolder(b, TopFolder(k))
    ensures var r := CutShort(live, b, fault, partial); (k in r <==> k in b) && (k in r ==> r[k] == b[k])
  {
    var i := RollbackFailure(b, fault).value;
    FolderNotBefore(i);
    RestoreFoldersAt(live, b, AllowedFolders[..i], k);
    PartlyRestoredOutside(RestoreFolders(live, b, AllowedFolders[..i]), b, AllowedFolders[i], partial, k);
  }

  /** A rollback cut short has left the later folders as they were. */
  lemma CutShortLater(live: Tree, b: Tree, fault: Option<nat>, partial: PartialRestore, k: string)
    requires RollbackFailure(b, fault).Some?
    requires TopFolder(k) !in AllowedFolders[..RollbackFailure(b, fault).value + 1]
    ensures var r := CutShort(live, b, fault, partial); (k in r <==> k in live) && (k in r ==> r[k] == live[k])
  {
    var i := RollbackFailure(b, fault).value;
    FolderNotBefore(i);
    RestoreFoldersAt(live, b, AllowedFolders[..i], k);
    PartlyRestoredOutside(RestoreFolders(live, b, AllowedFolders[..i]), b, AllowedFolders[i], partial, k);
  }

  /** The folder a rollback was cut short in holds only live files or backup files. */
  lemma CutShortFailing(live: Tree, b: Tree, fault: Option<nat>, partial: PartialRestore, k: string)
    requires RollbackFailure(b, fault).Some?
    requires TopFolder(k) == AllowedFolders[RollbackFailure(b, fault).value]
    requires k in CutShort(live, b, fault, partial)
    ensures var r := CutShort(live, b, fault, partial);
      if partial.RemoveStopped? then k in live && r[k] == live[k] else k in b && r[k] == b[k]
  {
    var i := RollbackFailure(b, fault).value;
    FolderNotBefore(i);
    RestoreFoldersAt(live, b, AllowedFolders[..i], k);
  }

  /**
   * A rollback from `b` cut short at allowed folder `i`: a file in an
   * earlier folder the backup holds is the backup's, a file in a later
   * folder is the live one, and a file in folder `i` is a live file
   * `rmtree` had not yet removed or a backup file `copytree` had already
   * copied.
   */
  lemma RollbackCutShort(live: Tree, b: Tree, fault: Option<nat>, partial: PartialRestore, k: string)
    requires RollbackFailure(b, fault).Some?
    ensures var i := RollbackFailure(b, fault).value;
      var r := CutShort(live, b, fault, partial);
      && (TopFolder(k) in AllowedFolders[..i] && HasFolder(b, TopFolder(k)) ==>
            (k in r <==> k in b) && (k in r ==> r[k] == b[k]))
      && (TopFolder(k) !in AllowedFolders[..i + 1] ==> (k in r <==> k in live) && (k in r ==> r[k] == live[k]))
      && (TopFolder(k) == AllowedFolders[i] && k in r ==>
            if partial.RemoveStopped? then k in live && r[k] == live[k] else k in b && r[k] == b[k])
  {
    var i := RollbackFailure(b, fault).value;
    if TopFolder(k) in AllowedFolders[..i] && HasFolder(b, TopFolder(k)) {
      CutShortEarlier(live, b, fault, partial, k);
    }
    if TopFolder(k) !in AllowedFolders[..i + 1] {
      CutShortLater(live, b, fault, partial, k);
    }
    if TopFolder(k) == AllowedFolders[i] && k in CutShort(live, b, fault, partial) {
      CutShortFailing(live, b, fault, partial, k);
    }
  }

  /** Staging after `clear_staging`: empty, or the files `fault` says survived a failed removal. */
  function Cleared(staging: Tree, fault: Option<set<string>>): Tree {
    if fault.None? then map[] else Restrict(staging, fault.value)
  }

  /** Why `deploy_staged_files` failed. */
  datatype DeployError = ValidationFailed(issues: seq<Issue>) | CopyFailed(path: string)

  /** The message `rollback` returns. */
  datatype RollbackMessage = NoBackups | BackupNotFound(name: string) | RolledBack(name: string) | RollbackFailed

  /**
   * The copy loop of `create_backup`: each allowed folder that exists in
   * `live` is copied, in order, until the copy at index `i` raises; `i` is
   * `|AllowedFolders|` when none does.
   */
  method CopyFolders(live: Tree, base: Tree, fault: Option<nat>) returns (done: Tree, i: nat)
    ensures i <= |AllowedFolders|
    ensures done == Within(live, AllowedFolders[..i])
    ensures BackupFailure(live, base, fault, 0) == BackupFailure(live, base, fault, i)
    ensures i < |AllowedFolders| ==> BackupFailure(live, base, fault, 0) == Some(i)
  {
    done := map[];
    i := 0;
    while i < |AllowedFolders|
      invariant 0 <= i <= |AllowedFolders|
      invariant done == Within(live, AllowedFolders[..i])
      invariant BackupFailure(live, base, fault, 0) == BackupFailure(live, base, fault, i)
    {
      var folder := AllowedFolders[i];
      PrefixStep(AllowedFolders, i);
      if HasFolder(live, folder) {
        if fault == Some(i) || HasFolder(base, folder) {
          return;
        }
        WithinStep(live, AllowedFolders[..i], folder);
        BackupFailureSkip(live, base, fault, i);
        done := done + FolderContents(live, folder);
      } else {
        WithinSkip(live, AllowedFolders[..i], folder);
        BackupFailureSkip(live, base, fault, i);
      }
      i := i + 1;
    }
  }

  /**
   * The restore loop of `rollback`: each allowed folder the backup `b`
   * holds replaces the folder of `start`, in order, until the one at index
   * `i` raises.
   */
  method RestoreUpTo(start: Tree, b: Tree, fault: Option<nat>) returns (restored: Tree, i: nat)
    ensures i <= |AllowedFolders|
    ensures restored == RestoreFolders(start, b, AllowedFolders[..i])
    ensures i == |AllowedFolders| <==> RollbackFailure(b, fault).None?
    ensures i < |AllowedFolders| ==> RollbackFailure(b, fault) == Some(i)
  {
    restored := start;
    ghost var stop := RollbackFailure(b, fault);
    i := 0;
    while i < |AllowedFolders|
      invariant 0 <= i <= |AllowedFolders|
      invariant restored == RestoreFolders(start, b, AllowedFolders[..i])
      invariant stop.Some? ==> stop.value >= i
    {
      var folder := AllowedFolders[i];
      if HasFolder(b, folder) && fault == Some(i) {
        return;
      }
      RestoreStep(start, b, AllowedFolders[..i], folder);
      PrefixStep(AllowedFolders, i);
      if HasFolder(b, folder) {
        restored := RestoreFolder(restored, b, folder);
      }
      i := i + 1;
    }
  }

  class Manager {
    /** The project tree outside the staging and backup directories. */
    var live: Tree
    /** `_update_staging`: relative path to staged content. */
    var staging: Tree
    /** `_backups`: entry name to stored tree. */
    var backups: Store

    /** The manager over an existing project; both working directories are kept if present. */
    constructor(live0: Tree, staging0: Tree, backups0: Store)
      ensures live == live0 && staging == staging0 && backups == backups0
    {
      live := live0;
      staging := staging0;
      backups := backups0;
    }

    /**
     * `_cleanup_old_backups`: pop the smallest names off the descending
     * list of backups until `MaxBackups` remain, deleting each.
     */
    method CleanupOldBackups()
      modifies this
      ensures backups == Evict(old(backups))
      ensures live == old(live) && staging == old(staging)
    {
      var names := SortDescending(BackupNames(backups));
      ghost var order := names;
      var store := backups;
      while |names| > MaxBackups
        invariant |names| <= |order| && names == order[..|names|]
        invariant |order| > MaxBackups ==> |names| >= MaxBackups
        invariant |order| <= MaxBackups ==> |names| == |order|
        invariant store == backups - From(order, |names|)
        modifies {}
        decreases |names|
      {
        var oldBackup := names[|names| - 1];
        FromStep(order, |names|);
        RemoveStep(backups, From(order, |names|), oldBackup);
        names := names[..|names| - 1];
        store := store - {oldBackup};
      }
      backups := store;
    }

    /**
     * `create_backup`: copy every existing allowed folder into the backup
     * `BackupName(timestamp, description)`, write its metadata, then evict
     * old backups. On an error the partly written backup, including the
     * files `copied` of a folder whose copy raised part-way, stays in place
     * and no eviction happens.
     */
    method CreateBackup(timestamp: string, description: string, metadata: string, fault: Option<nat>,
                        copied: set<string>)
      returns (path: Option<string>)
      modifies this
      ensures var name := BackupName(timestamp, description);
        var base := BackupBase(old(backups), name);
        var failure := BackupFailure(live, base, fault, 0);
        && (failure.None? ==> path == Some(name) && backups == AfterBackup(live, old(backups), name, metadata))
        && (failure.Some? ==>
              path.None?
              && backups == old(backups)[name := base + Within(live, AllowedFolders[..failure.value])
                                                  + BackupLeftover(live, base, failure.value, copied)])
      ensures live == old(live) && staging == old(staging)
    {
      var name := BackupName(timestamp, description);
      var base := BackupBase(backups, name);
      var done, i := CopyFolders(live, base, fault);
      if i < |AllowedFolders| || fault == Some(|AllowedFolders|) {
        var leftover := BackupLeftover(live, base, i, copied);
        backups := backups[name := base + done + leftover];
        return None;
      }
      assert AllowedFolders[..i] == AllowedFolders;
      backups := backups[name := (base + done)[MetadataFile := Text(metadata)]];
      CleanupOldBackups();
      path := Some(name);
    }

    /**
     * `clear_staging`: remove the staging directory and recreate it empty.
     * `fault == Some(left)` raises part-way, leaving the staged files in `left`.
     */
    method ClearStaging(fault: Option<set<string>>) returns (ok: bool)
      modifies this
      ensures ok <==> fault.None?
      ensures staging == Cleared(old(staging), fault)
      ensures live == old(live) && backups == old(backups)
    {
      if fault.Some? {
        staging := Restrict(staging, fault.value);
        return false;
      }
      staging := map[];
      ok := true;
    }

    /**
     * `stage_file`: a path the policy rejects is refused without touching
     * anything; otherwise the content is written into staging unless the
     * write raises.
     */
    method StageFile(path: string, content: Content, writeFails: bool) returns (ok: bool)
      modifies this
      ensures ok <==> IsPathAllowed(path) && !writeFails
      ensures staging == if ok then old(staging)[path := content] else old(staging)
      ensures live == old(live) && backups == old(backups)
    {
      if !IsPathAllowed(path) {
        return false;
      }
      if writeFails {
        return false;
      }
      staging := staging[path := content];
      ok := true;
    }

    /**
     * `validate_staging`: with nothing staged the single issue is
     * `NothingStaged`; otherwise every staged file is checked, one issue per
     * protected path and one per unreadable file, each reported once.
     */
    method ValidateStaging(unreadable: set<string>) returns (valid: bool, issues: seq<Issue>)
      ensures staging == map[] ==> !valid && issues == [NothingStaged]
      ensures staging != map[] ==> (set x | x in issues) == IssuesFor(staging.Keys, unreadable)
      ensures forall i, j :: 0 <= i < j < |issues| ==> issues[i] != issues[j]
      ensures valid <==> staging != map[] && IssuesFor(staging.Keys, unreadable) == {}
    {
      if staging == map[] {
        return false, [NothingStaged];
      }
      var remaining := staging.Keys;
      issues := [];
      while remaining != {}
        invariant remaining <= staging.Keys
        invariant (set x | x in issues) == IssuesFor(staging.Keys - remaining, unreadable)
        invariant forall x :: x in issues ==> !x.NothingStaged? && x.path in staging.Keys - remaining
        invariant forall i, j :: 0 <= i < j < |issues| ==> issues[i] != issues[j]
        decreases remaining
      {
        var p :| p in remaining;
        ghost var done := staging.Keys - remaining;
        assert staging.Keys - (remaining - {p}) == done + {p};
        IssuesStep(done, p, unreadable);
        IssuesStayDistinct(issues, done, p, unreadable);
        issues := issues + PathIssues(p, unreadable);
        remaining := remaining - {p};
      }
      assert staging.Keys - remaining == staging.Keys;
      NoneFound(issues);
      valid := |issues| == 0;
    }

    /**
     * The copy loop of `deploy_staged_files`: copy every staged file over
     * the live tree, counting the copies. The first copy that raises
     * (`failed`) ends the loop with the files copied so far (`deployed`) in
     * place.
     */
    method CopyStaged(copyFails: set<string>) returns (failed: Option<string>, count: nat, ghost deployed: set<string>)
      modifies this
      ensures failed.None? <==> staging.Keys !! copyFails
      ensures failed.Some? ==> failed.value in staging && failed.value in copyFails
      ensures deployed <= staging.Keys && deployed !! copyFails && count == |deployed|
      ensures failed.None? ==> deployed == staging.Keys
      ensures live == old(live) + Restrict(staging, deployed)
      ensures staging == old(staging) && backups == old(backups)
    {
      var staged := staging;
      var target := live;
      var remaining := staged.Keys;
      failed := None;
      count := 0;
      deployed := {};
      while remaining != {}
        invariant deployed !! remaining && deployed + remaining == staged.Keys
        invariant count == |deployed|
        invariant deployed !! copyFails
        invariant target == old(live) + Restrict(staged, deployed)
        modifies {}
        decreases remaining
      {
        var p :| p in remaining;
        if p in copyFails {
          failed := Some(p);
          break;
        }
        CopyStep(old(live), staged, deployed, p);
        CountStep(deployed, p);
        target := target[p := staged[p]];
        deployed := deployed + {p};
        count := count + 1;
        remaining := remaining - {p};
      }
      live := target;
    }

    /**
     * `deploy_staged_files`: validate, copy the staged files over the live
     * tree, then clear staging, whose own result is ignored. After a failed
     * copy the files copied before it stay in place; `deployed` is the set
     * of those files.
     */
    method DeployStagedFiles(unreadable: set<string>, copyFails: set<string>, clearFault: Option<set<string>>)
      returns (success: bool, count: nat, error: Option<DeployError>, ghost deployed: set<string>)
      modifies this
      ensures var valid := old(staging) != map[] && IssuesFor(old(staging).Keys, unreadable) == {};
        && (!valid ==> !success && count == 0 && deployed == {} && error.Some? && error.value.ValidationFailed?
                       && live == old(live) && staging == old(staging))
        && (valid ==> (success <==> old(staging).Keys !! copyFails))
      ensures deployed <= old(staging).Keys && deployed !! copyFails && count == |deployed|
      ensures forall p :: p in deployed ==> IsPathAllowed(p)
      ensures live == old(live) + Restrict(old(staging), deployed)
      ensures success ==>
        deployed == old(staging).Keys && error.None?
        && staging == Cleared(old(staging), clearFault)
      ensures !success ==> staging == old(staging) && error.Some?
      ensures error.Some? && error.value.CopyFailed? ==> error.value.path in copyFails
      ensures backups == old(backups)
    {
      var valid, issues := ValidateStaging(unreadable);
      if !valid {
        return false, 0, Some(ValidationFailed(issues)), {};
      }
      NoIssuesIff(staging.Keys, unreadable);
      var failed;
      failed, count, deployed := CopyStaged(copyFails);
      if failed.Some? {
        return false, count, Some(CopyFailed(failed.value)), deployed;
      }
      var _ := ClearStaging(clearFault);
      success := true;
      error := None;
    }

    /**
     * `rollback`'s restore of the folders of backup `b`, in the order of
     * `AllowedFolders`; the first failure ends it with the folders restored
     * so far and the failing folder left as `partial` says.
     */
    method RestoreFrom(b: Tree, fault: Option<nat>, partial: PartialRestore) returns (ok: bool)
      modifies this
      ensures ok <==> RollbackFailure(b, fault).None?
      ensures ok ==> live == Restore(old(live), b)
      ensures !ok ==> live == CutShort(old(live), b, fault, partial)
      ensures staging == old(staging) && backups == old(backups)
    {
      var restored, i := RestoreUpTo(live, b, fault);
      ok := i == |AllowedFolders|;
      if ok {
        assert AllowedFolders[..i] == AllowedFolders;
        live := restored;
      } else {
        live := PartlyRestored(restored, b, AllowedFolders[i], partial);
      }
    }

    /**
     * `rollback`: pick the named backup, or the greatest `backup_` name when
     * none (or the empty name) is given, and restore each allowed folder it
     * holds. One failure aborts the remaining folders, leaving the one it
     * hit part-way restored.
     */
    method Rollback(name: Option<string>, fault: Option<nat>, partial: PartialRestore) returns (ok: bool, message: RollbackMessage)
      modifies this
      ensures var chosen := ChosenBackup(name, old(backups));
        && (chosen.None? ==> !ok && message == NoBackups)
        && (chosen.Some? && chosen.value !in old(backups) ==> !ok && message == BackupNotFound(chosen.value))
        && (chosen.Some? && chosen.value in old(backups) ==>
              && (ok <==> RollbackFailure(old(backups)[chosen.value], fault).None?)
              && message == if ok then RolledBack(chosen.value) else RollbackFailed)
      ensures live == RollbackEffect(old(live), old(backups), name, fault, partial)
      ensures staging == old(staging) && backups == old(backups)
    {
      var target: string;
      if name.Some? && name.value != "" {
        target := name.value;
      } else {
        var names := BackupNames(backups);
        if names == {} {
          return false, NoBackups;
        }
        SortDescendingHead(names);
        target := SortDescending(names)[0];
      }
      if target !in backups {
        return false, BackupNotFound(target);
      }
      ok := RestoreFrom(backups[target], fault, partial);
      message := if ok then RolledBack(target) else RollbackFailed;
    }
  }
}
