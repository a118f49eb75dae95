/**
 * The path policy of the update manager: which relative paths an update may
 * write. An allow-list of top-level folders and a deny-list of protected
 * items; anything not explicitly allowed is rejected.
 */
module PathPolicy {
  import opened Strings

  /** Folders an update may change (`ALLOWED_FOLDERS`). */
  const AllowedFolders: seq<string> := ["backend", "tools", "config", "experiences"]

  /** Items an update must never change (`PROTECTED_ITEMS`). */
  const ProtectedItems: seq<string> := [".env", "logs", "_backups", "_update_staging", "frontend"]

  /** `str(path).replace("\\", "/")`. */
  function Normalize(path: string): string {
    seq(|path|, i requires 0 <= i < |path| => if path[i] == '\\' then '/' else path[i])
  }

  /**
   * The top-level folder of a relative path: its characters up to the first
   * separator, `/` or `\`. `TopFolderIsFirstPart` shows this is the
   * `path_parts[0]` of the policy check.
   */
  function TopFolder(path: string): string {
    if path == [] || path[0] == '/' || path[0] == '\\' then [] else [path[0]] + TopFolder(path[1..])
  }

  /** The top folder is the first `/`-separated part of the normalised path. */
  lemma {:induction false} TopFolderIsFirstPart(path: string)
    ensures TopFolder(path) == Split(Normalize(path), '/')[0]
    decreases |path|
  {
    var s := Normalize(path);
    if path == [] {
      assert s == [];
    } else if path[0] == '/' || path[0] == '\\' {
      assert s[0] == '/';
    } else {
      var t := Normalize(path[1..]);
      assert s == [path[0]] + t;
      assert s[1..] == t;
      TopFolderIsFirstPart(path[1..]);
      match IndexOf(t, '/')
      case None =>
      case Some(i) =>
        assert s[..i + 1] == [path[0]] + t[..i];
    }
  }

  /**
   * `is_path_allowed`: rejected when the first segment or the whole
   * normalised path is a protected item, accepted when the first segment is
   * an allowed folder, rejected otherwise. The first segment is written as
   * `TopFolder`, which `TopFolderIsFirstPart` shows is the first part of
   * the normalised path split at `/`.
   */
  predicate IsPathAllowed(path: string) {
    var pathStr := Normalize(path);
    var first := TopFolder(path);
    if first in ProtectedItems || pathStr in ProtectedItems then false
    else first in AllowedFolders
  }

  /** No protected item is also an allowed folder, and none contains a separator. */
  lemma ListsDisjoint()
    ensures forall q :: q in ProtectedItems ==> q !in AllowedFolders && '/' !in q && '\\' !in q
  {
  }

  /**
   * The verdict depends on the first segment alone: a path is allowed
   * exactly when its top-level folder is on the allow-list. The second test
   * of the source (the whole path equal to a protected item) never decides
   * anything the first does not.
   */
  lemma {:induction false} AllowedIffTopFolderAllowed(path: string)
    ensures IsPathAllowed(path) <==> TopFolder(path) in AllowedFolders
  {
    var pathStr := Normalize(path);
    ListsDisjoint();
    TopFolderIsFirstPart(path);
    if pathStr in ProtectedItems {
      assert '/' !in pathStr;
      assert Split(pathStr, '/') == [pathStr];
    }
  }

  /** A path whose first segment, or whole text, is protected is always rejected. */
  lemma ProtectedRejected(path: string)
    requires TopFolder(path) in ProtectedItems || Normalize(path) in ProtectedItems
    ensures !IsPathAllowed(path)
  {
    TopFolderIsFirstPart(path);
  }

  /** Paths that differ only in which separator they use (`/` or `\`). */
  predicate SameUpToSeparators(p: string, q: string) {
    |p| == |q| && forall i :: 0 <= i < |p| ==> p[i] == q[i] || (p[i] in "/\\" && q[i] in "/\\")
  }

  /**
   * Swapping `\` and `/` anywhere in a path never changes the verdict,
   * since normalisation happens before anything is compared.
   */
  lemma SeparatorsIrrelevant(p: string, q: string)
    requires SameUpToSeparators(p, q)
    ensures IsPathAllowed(p) == IsPathAllowed(q)
  {
    assert Normalize(p) == Normalize(q);
    TopFolderIsFirstPart(p);
    TopFolderIsFirstPart(q);
  }

  /** In particular, normalising first does not change the verdict. */
  lemma NormalizeKeepsVerdict(p: string)
    ensures IsPathAllowed(Normalize(p)) == IsPathAllowed(p)
  {
    SeparatorsIrrelevant(p, Normalize(p));
  }

  /** The top folder of a path whose first separator is at `i`. */
  lemma {:induction false} TopFolderAt(p: string, i: nat)
    requires i < |p| && p[i] == '/'
    requires forall j :: 0 <= j < i ==> p[j] != '/' && p[j] != '\\'
    ensures TopFolder(p) == p[..i]
    decreases i
  {
    if i > 0 {
      TopFolderAt(p[1..], i - 1);
      assert p[..i] == [p[0]] + p[1..][..i - 1];
    }
  }

  // The verdicts the module's own self-test expects, one lemma per path.

  lemma SelfTestBackendAllowed()
    ensures IsPathAllowed("backend/app.py")
  {
    TopFolderAt("backend/app.py", 7);
    assert TopFolder("backend/app.py") == "backend";
    AllowedIffTopFolderAllowed("backend/app.py");
  }

  lemma SelfTestToolsAllowed()
    ensures IsPathAllowed("tools/updater.py")
  {
    TopFolderAt("tools/updater.py", 5);
    assert TopFolder("tools/updater.py") == "tools";
    AllowedIffTopFolderAllowed("tools/updater.py");
  }

  lemma SelfTestEnvRejected()
    ensures !IsPathAllowed(".env")
  {
    assert Normalize(".env") == ".env";
  }

  lemma SelfTestFrontendRejected()
    ensures !IsPathAllowed("frontend/index.html")
  {
    TopFolderAt("frontend/index.html", 8);
    assert TopFolder("frontend/index.html") == "frontend";
    ProtectedRejected("frontend/index.html");
  }

  lemma SelfTestLogsRejected()
    ensures !IsPathAllowed("logs/debug.log")
  {
    TopFolderAt("logs/debug.log", 4);
    assert TopFolder("logs/debug.log") == "logs";
    ProtectedRejected("logs/debug.log");
  }
}
