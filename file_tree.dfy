/**
 * The project directory as the update manager sees it, and the pure
 * specifications its operations are proved against: a backup's snapshot of
 * the allowed folders, folder-by-folder restoration, and the eviction of
 * old backups.
 */
module FileTree {
  import opened Wrappers
  import opened Strings
  import opened Ordering
  import opened PathPolicy

  /** A file: text (written with mode "w") or raw bytes (mode "wb"). */
  datatype Content = Text(text: string) | Binary(bytes: seq<bv8>)

  /** A directory tree: relative path to file content. */
  type Tree = map<string, Content>

  /** The backup directory: entry name to the tree stored under it. */
  type Store = map<string, Tree>

  /** `MAX_BACKUPS`. */
  const MaxBackups: nat := 3

  /** The name prefix that marks an entry of the backup directory as a backup. */
  const BackupPrefix: string := "backup_"

  /** The files of `t` that lie in top-level folder `f`. */
  function FolderContents(t: Tree, f: string): Tree {
    map k | k in t && TopFolder(k) == f :: t[k]
  }

  /**
   * Top-level folder `f` exists in `t`: it holds at least one file. A
   * `Tree` records files only, so an empty folder does not exist here.
   */
  predicate HasFolder(t: Tree, f: string) {
    exists k :: k in t && TopFolder(k) == f
  }

  /** Extending a prefix of `fs` by one element. */
  lemma PrefixStep(fs: seq<string>, i: nat)
    requires i < |fs|
    ensures fs[..i + 1] == fs[..i] + [fs[i]]
  {
  }

  /** The files of `t` that lie in one of the folders `fs`. */
  function Within(t: Tree, fs: seq<string>): Tree {
    map k | k in t && TopFolder(k) in fs :: t[k]
  }

  /** Copying one more folder adds its files. */
  lemma WithinStep(t: Tree, fs: seq<string>, f: string)
    ensures Within(t, fs + [f]) == Within(t, fs) + FolderContents(t, f)
  {
  }

  /** A folder that does not exist adds nothing. */
  lemma WithinSkip(t: Tree, fs: seq<string>, f: string)
    requires !HasFolder(t, f)
    ensures Within(t, fs + [f]) == Within(t, fs)
  {
  }

  /** What a fresh backup holds: a copy of every allowed folder. */
  function Snapshot(t: Tree): Tree {
    Within(t, AllowedFolders)
  }

  /** The entries of `t` whose keys are in `keys`. */
  function Restrict(t: Tree, keys: set<string>): Tree {
    map k | k in t && k in keys :: t[k]
  }

  /** Adding a new element to a set of paths raises its size by one. */
  lemma CountStep(done: set<string>, p: string)
    requires p !in done
    ensures |done + {p}| == |done| + 1
  {
  }

  /** Copying one more staged file over the live tree. */
  lemma CopyStep(live: Tree, staged: Tree, done: set<string>, p: string)
    requires p in staged
    ensures (live + Restrict(staged, done))[p := staged[p]] == live + Restrict(staged, done + {p})
  {
  }

  /** Every file outside the allowed folders is the same in both trees. */
  ghost predicate SameOutsideAllowed(t1: Tree, t2: Tree) {
    forall k :: (k in t1 || k in t2) && TopFolder(k) !in AllowedFolders ==>
      k in t1 && k in t2 && t1[k] == t2[k]
  }

  /** `rmtree(target)` then `copytree(backup/f, target)` for one folder. */
  function RestoreFolder(t: Tree, b: Tree, f: string): Tree {
    (map k | k in t && TopFolder(k) != f :: t[k]) + FolderContents(b, f)
  }

  /** The rollback loop over `fs`: each folder present in `b` is restored. */
  function RestoreFolders(t: Tree, b: Tree, fs: seq<string>): Tree
    decreases |fs|
  {
    if fs == [] then t
    else
      var before := RestoreFolders(t, b, fs[..|fs| - 1]);
      var f := fs[|fs| - 1];
      if HasFolder(b, f) then RestoreFolder(before, b, f) else before
  }

  /** One more step of the rollback loop. */
  lemma RestoreStep(t: Tree, b: Tree, fs: seq<string>, f: string)
    ensures RestoreFolders(t, b, fs + [f])
      == if HasFolder(b, f) then RestoreFolder(RestoreFolders(t, b, fs), b, f) else RestoreFolders(t, b, fs)
  {
    assert (fs + [f])[..|fs|] == fs;
  }

  /**
   * How a restore step that raises leaves its folder: `rmtree` stopped with
   * the live files `kept` not yet deleted, or `copytree` stopped after
   * copying only the backup's files `copied`.
   */
  datatype PartialRestore = RemoveStopped(kept: set<string>) | CopyStopped(copied: set<string>)

  /** The tree after the restore of folder `f` from `b` raised part-way. */
  function PartlyRestored(t: Tree, b: Tree, f: string, p: PartialRestore): Tree {
    (map k | k in t && TopFolder(k) != f :: t[k])
    + match p
      case RemoveStopped(kept) => Restrict(FolderContents(t, f), kept)
      case CopyStopped(copied) => Restrict(FolderContents(b, f), copied)
  }

  /**
   * A restore cut short inside folder `f` leaves every other folder as it
   * was, and `f` holding only live files not yet removed or backup files
   * already copied.
   */
  lemma PartlyRestoredSpec(t: Tree, b: Tree, f: string, p: PartialRestore)
    ensures var r := PartlyRestored(t, b, f, p);
      && (forall k :: TopFolder(k) != f ==> (k in r <==> k in t) && (k in t ==> r[k] == t[k]))
      && (forall k :: k in r && TopFolder(k) == f ==>
            if p.RemoveStopped? then k in t && k in p.kept && r[k] == t[k]
            else k in b && k in p.copied && r[k] == b[k])
  {
  }

  /** A file outside the folder whose restore was cut short keeps its live state. */
  lemma PartlyRestoredOutside(t: Tree, b: Tree, f: string, p: PartialRestore, k: string)
    requires TopFolder(k) != f
    ensures var r := PartlyRestored(t, b, f, p); (k in r <==> k in t) && (k in r ==> r[k] == t[k])
  {
  }

  /** The file at `k` after restoring folders `fs`, as `RestoreFoldersSpec` gives it. */
  lemma RestoreFoldersAt(t: Tree, b: Tree, fs: seq<string>, k: string)
    ensures var r := RestoreFolders(t, b, fs);
      && (k in r <==> if Replaced(k, b, fs) then k in b else k in t)
      && (k in r ==> r[k] == if Replaced(k, b, fs) then b[k] else t[k])
  {
    RestoreFoldersSpec(t, b, fs);
  }

  /** A full rollback from backup tree `b`. */
  function Restore(t: Tree, b: Tree): Tree {
    RestoreFolders(t, b, AllowedFolders)
  }

  /** The file at `k` comes from the backup rather than the live tree. */
  predicate Replaced(k: string, b: Tree, fs: seq<string>) {
    TopFolder(k) in fs && HasFolder(b, TopFolder(k))
  }

  /**
   * Restoring folders `fs` from `b`: a path whose folder is in `fs` and
   * present in `b` takes the backup's file (or vanishes if the backup has
   * none); every other path keeps the live file.
   */
  lemma {:induction false} RestoreFoldersSpec(t: Tree, b: Tree, fs: seq<string>)
    ensures forall k :: k in RestoreFolders(t, b, fs) <==> (if Replaced(k, b, fs) then k in b else k in t)
    ensures forall k :: k in RestoreFolders(t, b, fs) ==>
      RestoreFolders(t, b, fs)[k] == (if Replaced(k, b, fs) then b[k] else t[k])
    decreases |fs|
  {
    if fs != [] {
      var init := fs[..|fs| - 1];
      var f := fs[|fs| - 1];
      RestoreFoldersSpec(t, b, init);
      assert forall g :: g in fs <==> g in init || g == f;
    }
  }

  /** A folder present in the backup becomes exactly the backup's copy. */
  lemma RestoreReplacesFolder(t: Tree, b: Tree, f: string)
    requires f in AllowedFolders && HasFolder(b, f)
    ensures FolderContents(Restore(t, b), f) == FolderContents(b, f)
  {
    RestoreFoldersSpec(t, b, AllowedFolders);
  }

  /**
   * A folder absent from the backup, or not an allowed folder, is left as it
   * is. A folder counts as present only when it holds a file: an empty
   * folder cannot be expressed in a `Tree`.
   */
  lemma RestoreKeepsFolder(t: Tree, b: Tree, f: string)
    requires f !in AllowedFolders || !HasFolder(b, f)
    ensures FolderContents(Restore(t, b), f) == FolderContents(t, f)
  {
    RestoreFoldersSpec(t, b, AllowedFolders);
  }

  /** Rollback never touches a file outside the allowed folders. */
  lemma RestoreSameOutside(t: Tree, b: Tree)
    ensures SameOutsideAllowed(t, Restore(t, b))
  {
    RestoreFoldersSpec(t, b, AllowedFolders);
  }

  /**
   * Backup then restore: whatever happened to the live tree in between,
   * every allowed folder that existed when the backup was taken is back to
   * its content at that time.
   */
  lemma BackupRestoreRoundTrip(before: Tree, after: Tree, f: string)
    requires f in AllowedFolders && HasFolder(before, f)
    ensures FolderContents(Restore(after, Snapshot(before)), f) == FolderContents(before, f)
  {
    var k :| k in before && TopFolder(k) == f;
    assert k in Snapshot(before);
    RestoreReplacesFolder(after, Snapshot(before), f);
  }

  /** The entries of the backup directory that count as backups. */
  function BackupNames(store: Store): set<string> {
    set n | n in store && StartsWith(n, BackupPrefix)
  }

  /** How many backups `_cleanup_old_backups` keeps out of `n`. */
  function KeptCount(n: nat): nat {
    if n <= MaxBackups then n else MaxBackups
  }

  /** The names at positions `k` and after in `order`. */
  function From(order: seq<string>, k: nat): set<string> {
    if k >= |order| then {} else set i | k <= i < |order| :: order[i]
  }

  /** Popping the name at position `k - 1` adds it to the names from `k` on. */
  lemma FromStep(order: seq<string>, k: nat)
    requires 0 < k <= |order|
    ensures From(order, k - 1) == From(order, k) + {order[k - 1]}
  {
  }

  /** Deleting one more entry. */
  lemma RemoveStep(s: Store, gone: set<string>, n: string)
    ensures s - gone - {n} == s - (gone + {n})
  {
  }

  /** The backups `_cleanup_old_backups` deletes: all but the greatest `MaxBackups` names. */
  function Evicted(store: Store): set<string> {
    From(SortDescending(BackupNames(store)), MaxBackups)
  }

  /** The backup directory after `_cleanup_old_backups`. */
  function Evict(store: Store): Store {
    store - Evicted(store)
  }

  /** The backups that survive eviction are the first `KeptCount` names of the descending order. */
  lemma EvictKeepsPrefix(store: Store)
    ensures var order := SortDescending(BackupNames(store));
      BackupNames(Evict(store)) == set i | 0 <= i < KeptCount(|order|) :: order[i]
  {
    var order := SortDescending(BackupNames(store));
    SortDescendingSpec(BackupNames(store));
    var m := KeptCount(|order|);
    var kept := set i | 0 <= i < m :: order[i];
    SortedDistinct(order);
    forall j | MaxBackups <= j < |order|
      ensures order[j] in Evicted(store)
    {
    }
    forall n | n in BackupNames(Evict(store))
      ensures n in kept
    {
      assert n in BackupNames(store);
      assert n in order;
      var j :| 0 <= j < |order| && order[j] == n;
    }
    forall n | n in kept
      ensures n in BackupNames(Evict(store))
    {
      var j :| 0 <= j < m && order[j] == n;
      assert n in BackupNames(store);
    }
  }

  /** A strictly descending sequence holds each name at one index only. */
  lemma SortedDistinct(r: seq<string>)
    requires SortedDescending(r)
    ensures forall i, j :: 0 <= i < |r| && 0 <= j < |r| && r[i] == r[j] ==> i == j
  {
    forall i, j | 0 <= i < |r| && 0 <= j < |r| && i != j
      ensures r[i] != r[j]
    {
      if i < j {
        assert LexLess(r[j], r[i]);
      } else {
        assert LexLess(r[i], r[j]);
      }
    }
  }

  /** The first `m` elements of a sequence without repeats number `m`. */
  lemma DistinctPrefixCardinality(r: seq<string>, m: nat)
    requires SortedDescending(r) && m <= |r|
    ensures |set i | 0 <= i < m :: r[i]| == m
  {
    var kept := r[..m];
    assert SortedDescending(kept);
    DistinctCardinality(kept);
    assert (set i | 0 <= i < m :: r[i]) == set x | x in kept;
  }

  /** At most `MaxBackups` backups remain, and exactly that many when there were more. */
  lemma EvictBound(store: Store)
    ensures |BackupNames(Evict(store))| == KeptCount(|BackupNames(store)|)
  {
    var order := SortDescending(BackupNames(store));
    SortDescendingSpec(BackupNames(store));
    EvictKeepsPrefix(store);
    DistinctPrefixCardinality(order, KeptCount(|order|));
  }

  /** Every backup kept has a greater name than every backup deleted. */
  lemma EvictKeepsGreatest(store: Store, kept: string, gone: string)
    requires kept in BackupNames(Evict(store))
    requires gone in BackupNames(store) && gone !in Evict(store)
    ensures LexLess(gone, kept)
  {
    var order := SortDescending(BackupNames(store));
    SortDescendingSpec(BackupNames(store));
    EvictKeepsPrefix(store);
    var i :| 0 <= i < KeptCount(|order|) && order[i] == kept;
    var j :| MaxBackups <= j < |order| && order[j] == gone;
  }

  /** Eviction only deletes: what remains is unchanged, and non-backup entries all remain. */
  lemma EvictOnlyDeletesBackups(store: Store)
    ensures forall n :: n in Evict(store) ==> n in store && Evict(store)[n] == store[n]
    ensures forall n :: n in store && !StartsWith(n, BackupPrefix) ==> n in Evict(store)
  {
    var order := SortDescending(BackupNames(store));
    SortDescendingSpec(BackupNames(store));
    forall i | MaxBackups <= i < |order|
      ensures StartsWith(order[i], BackupPrefix)
    {
      assert order[i] in BackupNames(store);
    }
  }

  /** With at most `MaxBackups` backups, eviction changes nothing. */
  lemma EvictNoop(store: Store)
    requires |BackupNames(store)| <= MaxBackups
    ensures Evict(store) == store
  {
    SortDescendingSpec(BackupNames(store));
  }

  /**
   * The backup a rollback restores from: the one named, or (no name, or the
   * empty name, which Python treats as false) the greatest backup name.
   */
  function ChosenBackup(name: Option<string>, store: Store): Option<string> {
    if name.Some? && name.value != "" then name
    else if BackupNames(store) == {} then None
    else
      SortDescendingHead(BackupNames(store));
      Some(SortDescending(BackupNames(store))[0])
  }

  /** Without a name, rollback picks the greatest backup name. */
  lemma ChosenIsGreatest(name: Option<string>, store: Store)
    requires name.None? || name == Some("")
    requires BackupNames(store) != {}
    ensures ChosenBackup(name, store).Some?
    ensures IsGreatest(ChosenBackup(name, store).value, BackupNames(store))
  {
    SortDescendingHead(BackupNames(store));
  }

  /** The greatest backup name is never evicted. */
  lemma GreatestSurvives(store: Store, name: string)
    requires IsGreatest(name, BackupNames(store))
    ensures name in Evict(store) && Evict(store)[name] == store[name]
    ensures IsGreatest(name, BackupNames(Evict(store)))
  {
    SortDescendingHead(BackupNames(store));
    SortDescendingSpec(BackupNames(store));
    GreatestUnique(BackupNames(store));
    var order := SortDescending(BackupNames(store));
    assert order[0] == name;
    SortedDistinct(order);
    assert name in BackupNames(Evict(store));
  }

  /**
   * A new backup whose name is greater than every existing backup survives
   * eviction, and is the one a later rollback without a name restores.
   */
  lemma NewestBackupChosen(store: Store, name: string, b: Tree)
    requires StartsWith(name, BackupPrefix)
    requires forall n :: n in BackupNames(store) ==> LexLess(n, name)
    ensures name in Evict(store[name := b]) && Evict(store[name := b])[name] == b
    ensures ChosenBackup(None, Evict(store[name := b])) == Some(name)
  {
    var s := store[name := b];
    LexLeReflexive(name);
    assert BackupNames(s) == BackupNames(store) + {name};
    assert IsGreatest(name, BackupNames(s));
    GreatestSurvives(s, name);
    var e := Evict(s);
    ChosenIsGreatest(None, e);
    GreatestUnique(BackupNames(e));
  }

  /** What `validate_staging` can report. */
  datatype Issue = NothingStaged | ProtectedInStaging(path: string) | UnreadableFile(path: string)

  /** The issues `validate_staging` reports for one staged path, in order. */
  function PathIssues(p: string, unreadable: set<string>): (r: seq<Issue>)
    ensures forall x :: x in r ==> !x.NothingStaged? && x.path == p
    ensures forall i, j :: 0 <= i < j < |r| ==> r[i] != r[j]
  {
    (if !IsPathAllowed(p) then [ProtectedInStaging(p)] else [])
    + (if p in unreadable then [UnreadableFile(p)] else [])
  }

  /** One issue per protected staged path and one per unreadable staged path. */
  function IssuesFor(paths: set<string>, unreadable: set<string>): set<Issue> {
    (set p | p in paths && !IsPathAllowed(p) :: ProtectedInStaging(p))
    + (set p | p in paths && p in unreadable :: UnreadableFile(p))
  }

  /** Checking one more path adds exactly that path's issues. */
  lemma IssuesStep(done: set<string>, p: string, unreadable: set<string>)
    ensures IssuesFor(done + {p}, unreadable)
      == IssuesFor(done, unreadable) + set x | x in PathIssues(p, unreadable)
  {
  }

  /** The issues found so far are about paths already checked, so the next path's are new. */
  lemma IssuesStayDistinct(issues: seq<Issue>, done: set<string>, p: string, unreadable: set<string>)
    requires forall x :: x in issues ==> !x.NothingStaged? && x.path in done
    requires forall i, j :: 0 <= i < j < |issues| ==> issues[i] != issues[j]
    requires p !in done
    ensures var r := issues + PathIssues(p, unreadable);
      forall i, j :: 0 <= i < j < |r| ==> r[i] != r[j]
  {
    var extra := PathIssues(p, unreadable);
    var r := issues + extra;
    forall i, j | 0 <= i < j < |r|
      ensures r[i] != r[j]
    {
      if j >= |issues| && i < |issues| {
        assert r[i] in issues && r[j] in extra;
      } else if i >= |issues| {
        assert r[i] == extra[i - |issues|] && r[j] == extra[j - |issues|];
      }
    }
  }

  /** A list of issues is empty exactly when the set of its elements is. */
  lemma NoneFound(issues: seq<Issue>)
    ensures |issues| == 0 <==> (set x | x in issues) == {}
  {
    var found := set x | x in issues;
    if |issues| > 0 {
      assert issues[0] in found;
    } else {
      assert issues == [];
      assert found == {};
    }
  }

  /** No issue is reported exactly when every staged path is allowed and readable. */
  lemma NoIssuesIff(paths: set<string>, unreadable: set<string>)
    ensures IssuesFor(paths, unreadable) == {}
      <==> forall p :: p in paths ==> IsPathAllowed(p) && p !in unreadable
  {
    if IssuesFor(paths, unreadable) == {} {
      forall p | p in paths
        ensures IsPathAllowed(p) && p !in unreadable
      {
        assert ProtectedInStaging(p) !in IssuesFor(paths, unreadable);
        assert UnreadableFile(p) !in IssuesFor(paths, unreadable);
      }
    }
  }
}
