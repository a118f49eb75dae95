/**
 * The update sequence both updaters run on the shared manager: back up,
 * clear staging, stage each incoming file, deploy, and roll back when the
 * deployment fails. This module holds what the two sequences have in
 * common: the faults the file system may raise along the way, the staging
 * loop as a function, the deploy-then-roll-back tail, and the safety
 * properties of the whole sequence.
 */
module UpdateFlow {
  import opened Wrappers
  import opened Strings
  import opened Ordering
  import opened PathPolicy
  import opened FileTree
  import opened UpdateManager

  /**
   * Where the file system raises during one update: the backup step (with
   * the files its interrupted folder copy got through), the clearing of
   * staging before and after deploying, the staged writes, the staged files
   * that cannot be read back, the copies, and the rollback step (with how
   * far its interrupted folder restore got).
   */
  datatype Faults = Faults(
    backup: Option<nat>,
    backupCopied: set<string>,
    clearBefore: Option<set<string>>,
    writeFails: set<string>,
    unreadable: set<string>,
    copyFails: set<string>,
    clearAfter: Option<set<string>>,
    rollback: Option<nat>,
    rollbackLeft: PartialRestore)

  /** One incoming file: where it goes and what it holds. */
  datatype Entry = Entry(path: string, content: Content)

  /** `stage_file` succeeds: the policy allows the path and the write does not raise. */
  predicate Accepted(path: string, writeFails: set<string>) {
    IsPathAllowed(path) && path !in writeFails
  }

  /** Staging after `stage_file` was called on each entry in order. */
  function StageAll(s: Tree, es: seq<Entry>, writeFails: set<string>): Tree
    decreases |es|
  {
    if es == [] then s
    else
      var before := StageAll(s, es[..|es| - 1], writeFails);
      var e := es[|es| - 1];
      if Accepted(e.path, writeFails) then before[e.path := e.content] else before
  }

  /** `staged_count`: how many of those calls returned true. */
  function StagedCount(es: seq<Entry>, writeFails: set<string>): nat
    decreases |es|
  {
    if es == [] then 0
    else StagedCount(es[..|es| - 1], writeFails) + (if Accepted(es[|es| - 1].path, writeFails) then 1 else 0)
  }

  /** The paths of the entries that were staged. */
  function AcceptedPaths(es: seq<Entry>, writeFails: set<string>): set<string> {
    set i | 0 <= i < |es| && Accepted(es[i].path, writeFails) :: es[i].path
  }

  /** Staging one more entry. */
  lemma StageStep(s: Tree, es: seq<Entry>, e: Entry, writeFails: set<string>)
    ensures StageAll(s, es + [e], writeFails)
      == if Accepted(e.path, writeFails) then StageAll(s, es, writeFails)[e.path := e.content] else StageAll(s, es, writeFails)
    ensures StagedCount(es + [e], writeFails)
      == StagedCount(es, writeFails) + if Accepted(e.path, writeFails) then 1 else 0
  {
    assert (es + [e])[..|es|] == es;
  }

  /**
   * The staging loop adds exactly the accepted paths and leaves every other
   * staged file as it was; it counts at least one success exactly when some
   * path was accepted.
   */
  lemma {:induction false} StageAllSpec(s: Tree, es: seq<Entry>, writeFails: set<string>)
    ensures StageAll(s, es, writeFails).Keys == s.Keys + AcceptedPaths(es, writeFails)
    ensures forall p :: p in s && p !in AcceptedPaths(es, writeFails) ==> StageAll(s, es, writeFails)[p] == s[p]
    ensures StagedCount(es, writeFails) == 0 <==> AcceptedPaths(es, writeFails) == {}
    decreases |es|
  {
    if es != [] {
      var init := es[..|es| - 1];
      var e := es[|es| - 1];
      assert es == init + [e];
      StageAllSpec(s, init, writeFails);
      StageStep(s, init, e, writeFails);
      AcceptedStep(init, e, writeFails);
    }
  }

  /** One more entry adds its path to the accepted ones exactly when it is accepted. */
  lemma AcceptedStep(es: seq<Entry>, e: Entry, writeFails: set<string>)
    ensures AcceptedPaths(es + [e], writeFails)
      == AcceptedPaths(es, writeFails) + if Accepted(e.path, writeFails) then {e.path} else {}
  {
    var all := es + [e];
    forall p | p in AcceptedPaths(all, writeFails)
      ensures p in AcceptedPaths(es, writeFails) || p == e.path
    {
      var i :| 0 <= i < |all| && Accepted(all[i].path, writeFails) && all[i].path == p;
      if i < |es| {
        assert all[i] == es[i];
      }
    }
    forall p | p in AcceptedPaths(es, writeFails)
      ensures p in AcceptedPaths(all, writeFails)
    {
      var i :| 0 <= i < |es| && Accepted(es[i].path, writeFails) && es[i].path == p;
      assert all[i] == es[i];
    }
    if Accepted(e.path, writeFails) {
      assert all[|es|] == e;
    }
  }

  /** A path every entry of which carries content `c` holds `c` once it was staged. */
  lemma {:induction false} StagedContent(s: Tree, es: seq<Entry>, writeFails: set<string>, p: string, c: Content)
    requires forall i :: 0 <= i < |es| && es[i].path == p ==> es[i].content == c
    requires p in AcceptedPaths(es, writeFails)
    ensures p in StageAll(s, es, writeFails) && StageAll(s, es, writeFails)[p] == c
    decreases |es|
  {
    var init := es[..|es| - 1];
    var e := es[|es| - 1];
    if !(e.path == p && Accepted(p, writeFails)) {
      var j :| 0 <= j < |es| && Accepted(es[j].path, writeFails) && es[j].path == p;
      assert j < |init| && init[j] == es[j];
      forall i | 0 <= i < |init| && init[i].path == p
        ensures init[i].content == c
      {
        assert init[i] == es[i];
      }
      StagedContent(s, init, writeFails, p, c);
    }
  }

  /** `validate_staging` passes on staging `staged`: something is staged and nothing is wrong. */
  predicate Validates(staged: Tree, unreadable: set<string>) {
    staged != map[] && IssuesFor(staged.Keys, unreadable) == {}
  }

  /** `deploy_staged_files` would succeed on staging `staged`: it validates and no copy raises. */
  predicate Deployable(staged: Tree, unreadable: set<string>, copyFails: set<string>) {
    Validates(staged, unreadable) && staged.Keys !! copyFails
  }

  /** Copying allowed paths over the live tree changes nothing outside the allowed folders. */
  lemma DeployStaysInside(live: Tree, staged: Tree, deployed: set<string>)
    requires forall p :: p in deployed ==> IsPathAllowed(p)
    ensures SameOutsideAllowed(live, live + Restrict(staged, deployed))
  {
    forall p | p in deployed
      ensures TopFolder(p) in AllowedFolders
    {
      AllowedIffTopFolderAllowed(p);
    }
  }

  /** Agreeing outside the allowed folders is transitive. */
  lemma SameOutsideTrans(a: Tree, b: Tree, c: Tree)
    requires SameOutsideAllowed(a, b) && SameOutsideAllowed(b, c)
    ensures SameOutsideAllowed(a, c)
  {
  }

  /** A rollback, complete or cut short, changes nothing outside the allowed folders. */
  lemma RollbackStaysInside(live: Tree, backups: Store, name: Option<string>, fault: Option<nat>,
                            partial: PartialRestore)
    ensures SameOutsideAllowed(live, RollbackEffect(live, backups, name, fault, partial))
  {
    var chosen := ChosenBackup(name, backups);
    if chosen.Some? && chosen.value in backups {
      var b := backups[chosen.value];
      match RollbackFailure(b, fault)
      case None =>
        RestoreFoldersSpec(live, b, AllowedFolders);
      case Some(i) =>
        var before := RestoreFolders(live, b, AllowedFolders[..i]);
        RestoreFoldersSpec(live, b, AllowedFolders[..i]);
        PartlyRestoredSpec(before, b, AllowedFolders[i], partial);
    }
  }

  /**
   * The tail of both update sequences: deploy the staged files; when that
   * fails, roll back to the newest backup, ignoring how the rollback went.
   */
  method DeployOrRollBack(m: Manager, unreadable: set<string>, copyFails: set<string>,
                          clearAfter: Option<set<string>>, rollbackFault: Option<nat>, rollbackLeft: PartialRestore)
    returns (success: bool, count: nat, error: Option<DeployError>, ghost deployed: set<string>)
    modifies m
    ensures success <==> Deployable(old(m.staging), unreadable, copyFails)
    ensures success ==>
      && error.None? && count == |old(m.staging)|
      && m.live == old(m.live) + old(m.staging)
      && m.staging == Cleared(old(m.staging), clearAfter)
    ensures forall p :: p in deployed ==> IsPathAllowed(p)
    ensures deployed !! copyFails
    ensures !Validates(old(m.staging), unreadable) ==> deployed == {}
    ensures !success ==>
      && error.Some? && deployed <= old(m.staging).Keys
      && m.live == RollbackEffect(old(m.live) + Restrict(old(m.staging), deployed), old(m.backups), None,
                                  rollbackFault, rollbackLeft)
      && m.staging == old(m.staging)
    ensures SameOutsideAllowed(old(m.live), m.live)
    ensures m.backups == old(m.backups)
  {
    ghost var live0 := m.live;
    ghost var staged := m.staging;
    success, count, error, deployed := m.DeployStagedFiles(unreadable, copyFails, clearAfter);
    DeployStaysInside(live0, staged, deployed);
    if success {
      assert Restrict(staged, deployed) == staged;
      return;
    }
    ghost var live1 := m.live;
    var _, _ := m.Rollback(None, rollbackFault, rollbackLeft);
    RollbackStaysInside(live1, m.backups, None, rollbackFault, rollbackLeft);
    SameOutsideTrans(live0, live1, m.live);
  }

  /** The metadata file lies outside every allowed folder. */
  lemma MetadataOutsideFolders()
    ensures TopFolder(MetadataFile) !in AllowedFolders
  {
    TopFolderAt(MetadataFile + "/", |MetadataFile|);
    assert (MetadataFile + "/")[..|MetadataFile|] == MetadataFile;
    TopFolderPrefix(MetadataFile, "/");
  }

  /** Characters before the first separator decide the top folder alone. */
  lemma {:induction false} TopFolderPrefix(p: string, rest: string)
    requires forall j :: 0 <= j < |p| ==> p[j] != '/' && p[j] != '\\'
    requires rest != [] && (rest[0] == '/' || rest[0] == '\\')
    ensures TopFolder(p) == TopFolder(p + rest)
    decreases |p|
  {
    if p != [] {
      assert (p + rest)[1..] == p[1..] + rest;
      TopFolderPrefix(p[1..], rest);
    } else {
      assert p + rest == rest;
    }
  }

  /**
   * The safety property of an update that fails to deploy: when the backup
   * taken at its start has a name greater than every earlier backup (as a
   * later timestamp gives), the rollback that follows brings every allowed
   * folder that existed before the update back to its content at that time,
   * whatever the failed deployment had copied over it.
   */
  lemma FailedUpdateRestored(live0: Tree, backups0: Store, name: string, metadata: string, live1: Tree,
                             partial: PartialRestore, f: string)
    requires StartsWith(name, BackupPrefix)
    requires forall n :: n in BackupNames(backups0) ==> LexLess(n, name)
    requires f in AllowedFolders && HasFolder(live0, f)
    ensures FolderContents(RollbackEffect(live1, AfterBackup(live0, backups0, name, metadata), None, None, partial), f)
      == FolderContents(live0, f)
  {
    assert name !in BackupNames(backups0);
    assert BackupBase(backups0, name) == map[];
    var b := (map[] + Snapshot(live0))[MetadataFile := Text(metadata)];
    assert b == Snapshot(live0)[MetadataFile := Text(metadata)];
    NewestBackupChosen(backups0, name, b);
    BackupFolder(live0, Text(metadata), f);
    var k :| k in live0 && TopFolder(k) == f;
    assert k in FolderContents(b, f);
    RestoreReplacesFolder(live1, b, f);
  }

  /** Each allowed folder of a new backup is the live tree's copy of it. */
  lemma BackupFolder(t: Tree, v: Content, f: string)
    requires f in AllowedFolders
    ensures FolderContents(Snapshot(t)[MetadataFile := v], f) == FolderContents(t, f)
  {
    MetadataOutsideFolders();
    var snap := Snapshot(t);
    var b := snap[MetadataFile := v];
    forall k | k in t && TopFolder(k) == f
      ensures k in snap && snap[k] == t[k]
    {
    }
    forall k | k in b && TopFolder(k) == f
      ensures k in snap && b[k] == snap[k]
    {
    }
  }

  /** The three trees the manager owns. */
  datatype Files = Files(live: Tree, staging: Tree, backups: Store)

  /** How an update sequence ended. */
  datatype Outcome =
    | BackupAborted
    | ExtractionFailed
    | NoneStaged
    | Deployed(count: nat)
    | DeploymentFailed(error: DeployError)

  /**
   * The whole update sequence on files `s0`: back up under `name`; on
   * success clear staging (its result ignored); when the incoming files
   * could be obtained (`entries`), stage each; with at least one staged,
   * deploy, rolling back to the newest backup if that fails. `deployed`
   * (the files copied before a copy raised) and `error` (the reason given)
   * are chosen by the iteration order of the file system.
   */
  function UpdateResult(s0: Files, name: string, metadata: string, entries: Option<seq<Entry>>, faults: Faults,
                        deployed: set<string>, error: DeployError): (Files, Outcome)
  {
    var base := BackupBase(s0.backups, name);
    match BackupFailure(s0.live, base, faults.backup, 0)
    case Some(k) =>
      (s0.(backups := s0.backups[name := base + Within(s0.live, AllowedFolders[..k])
                                          + BackupLeftover(s0.live, base, k, faults.backupCopied)]),
       BackupAborted)
    case None =>
      var backups1 := AfterBackup(s0.live, s0.backups, name, metadata);
      var cleared := Cleared(s0.staging, faults.clearBefore);
      match entries
      case None => (Files(s0.live, cleared, backups1), ExtractionFailed)
      case Some(es) =>
        DeployResult(s0.live, StageAll(cleared, es, faults.writeFails), backups1, StagedCount(es, faults.writeFails),
                     faults, deployed, error)
  }

  /**
   * The end of the update sequence, once `stagedCount` files were staged
   * into `staged`: nothing happens without a staged file; otherwise deploy,
   * and roll back when the deployment fails. A deployment that fails
   * validation copies nothing; one whose copy raises leaves `deployed` in
   * place before the rollback.
   */
  function DeployResult(live: Tree, staged: Tree, backups: Store, stagedCount: nat, faults: Faults,
                        deployed: set<string>, error: DeployError): (Files, Outcome)
  {
    if stagedCount == 0 then (Files(live, staged, backups), NoneStaged)
    else if Deployable(staged, faults.unreadable, faults.copyFails) then
      (Files(live + staged, Cleared(staged, faults.clearAfter), backups), Deployed(|staged|))
    else
      var copied := if Validates(staged, faults.unreadable) then deployed else {};
      (Files(RollbackEffect(live + Restrict(staged, copied), backups, None, faults.rollback, faults.rollbackLeft),
             staged, backups),
       DeploymentFailed(error))
  }

  /** An update, however it ends, never changes a file outside the allowed folders. */
  lemma UpdateStaysInside(s0: Files, name: string, metadata: string, entries: Option<seq<Entry>>, faults: Faults,
                          deployed: set<string>, error: DeployError)
    requires forall p :: p in deployed ==> IsPathAllowed(p)
    ensures SameOutsideAllowed(s0.live, UpdateResult(s0, name, metadata, entries, faults, deployed, error).0.live)
  {
    var base := BackupBase(s0.backups, name);
    match BackupFailure(s0.live, base, faults.backup, 0)
    case Some(k) =>
    case None =>
      match entries
      case None =>
      case Some(es) =>
        var t := StageAll(Cleared(s0.staging, faults.clearBefore), es, faults.writeFails);
        if StagedCount(es, faults.writeFails) != 0 {
          if Deployable(t, faults.unreadable, faults.copyFails) {
            NoIssuesIff(t.Keys, faults.unreadable);
            assert Restrict(t, t.Keys) == t;
            DeployStaysInside(s0.live, t, t.Keys);
          } else {
            var backups1 := AfterBackup(s0.live, s0.backups, name, metadata);
            var copied := if Validates(t, faults.unreadable) then deployed else {};
            var live1 := s0.live + Restrict(t, copied);
            var live2 := RollbackEffect(live1, backups1, None, faults.rollback, faults.rollbackLeft);
            assert UpdateResult(s0, name, metadata, entries, faults, deployed, error).0.live == live2;
            DeployStaysInside(s0.live, t, copied);
            RollbackStaysInside(live1, backups1, None, faults.rollback, faults.rollbackLeft);
            SameOutsideTrans(s0.live, live1, live2);
          }
        }
  }

  /**
   * A deployed update leaves every staged file live with its staged
   * content, and every other live file as it was.
   */
  lemma UpdateDeploysStaged(s0: Files, name: string, metadata: string, es: seq<Entry>, faults: Faults,
                            deployed: set<string>, error: DeployError)
    requires UpdateResult(s0, name, metadata, Some(es), faults, deployed, error).1.Deployed?
    ensures var live := UpdateResult(s0, name, metadata, Some(es), faults, deployed, error).0.live;
      var t := StageAll(Cleared(s0.staging, faults.clearBefore), es, faults.writeFails);
      && AcceptedPaths(es, faults.writeFails) != {}
      && (forall p :: p in t ==> IsPathAllowed(p) && p in live && live[p] == t[p])
      && (forall p :: p in s0.live && p !in t ==> p in live && live[p] == s0.live[p])
  {
    var t := StageAll(Cleared(s0.staging, faults.clearBefore), es, faults.writeFails);
    StageAllSpec(Cleared(s0.staging, faults.clearBefore), es, faults.writeFails);
    NoIssuesIff(t.Keys, faults.unreadable);
  }

  /**
   * The safety net: when a deployment fails after a backup whose name is
   * greater than every earlier backup, and the rollback does not raise,
   * every allowed folder that existed before the update is back to its
   * earlier content.
   */
  lemma UpdateRollsBack(s0: Files, name: string, metadata: string, es: seq<Entry>, faults: Faults,
                        deployed: set<string>, error: DeployError, f: string)
    requires StartsWith(name, BackupPrefix)
    requires forall n :: n in BackupNames(s0.backups) ==> LexLess(n, name)
    requires faults.rollback.None?
    requires UpdateResult(s0, name, metadata, Some(es), faults, deployed, error).1.DeploymentFailed?
    requires f in AllowedFolders && HasFolder(s0.live, f)
    ensures FolderContents(UpdateResult(s0, name, metadata, Some(es), faults, deployed, error).0.live, f)
      == FolderContents(s0.live, f)
  {
    var t := StageAll(Cleared(s0.staging, faults.clearBefore), es, faults.writeFails);
    var copied := if Validates(t, faults.unreadable) then deployed else {};
    var live1 := s0.live + Restrict(t, copied);
    var backups1 := AfterBackup(s0.live, s0.backups, name, metadata);
    assert BackupFailure(s0.live, BackupBase(s0.backups, name), faults.backup, 0).None?;
    assert StagedCount(es, faults.writeFails) != 0 && !Deployable(t, faults.unreadable, faults.copyFails);
    assert UpdateResult(s0, name, metadata, Some(es), faults, deployed, error).0.live
      == RollbackEffect(live1, backups1, None, None, faults.rollbackLeft);
    FailedUpdateRestored(s0.live, s0.backups, name, metadata, live1, faults.rollbackLeft, f);
  }

  /**
   * After a successful backup the backup directory keeps at most
   * `MaxBackups` backups, and the new one, when its name is the greatest,
   * is among them and is what a rollback without a name restores.
   */
  lemma UpdateKeepsNewestBackup(s0: Files, name: string, metadata: string, entries: Option<seq<Entry>>, faults: Faults,
                                deployed: set<string>, error: DeployError)
    requires StartsWith(name, BackupPrefix)
    requires forall n :: n in BackupNames(s0.backups) ==> LexLess(n, name)
    requires !UpdateResult(s0, name, metadata, entries, faults, deployed, error).1.BackupAborted?
    ensures var backups := UpdateResult(s0, name, metadata, entries, faults, deployed, error).0.backups;
      && |BackupNames(backups)| <= MaxBackups
      && name in backups && ChosenBackup(None, backups) == Some(name)
  {
    assert name !in BackupNames(s0.backups);
    var b := (BackupBase(s0.backups, name) + Snapshot(s0.live))[MetadataFile := Text(metadata)];
    assert BackupFailure(s0.live, BackupBase(s0.backups, name), faults.backup, 0).None?;
    assert UpdateResult(s0, name, metadata, entries, faults, deployed, error).0.backups
      == Evict(s0.backups[name := b]);
    NewestBackupChosen(s0.backups, name, b);
    EvictBound(s0.backups[name := b]);
  }
}
