/**
 * The fallback update source: an IMAP inbox. Unseen messages whose subject
 * carries the update prefix and whose sender is on the allow-list are
 * candidates; the first one is screened (archive and checksum attached,
 * digests agree) and its archive deployed through the shared manager. The
 * message is then marked processed whatever the result, so a bad message
 * is never retried.
 *
 * The server is an oracle (`Mailbox`): what each request answers during one
 * run. The digest of an archive (`hash`) and the unpacking of an archive
 * into files (`extract`, `None` when it fails) are function parameters.
 */
module Email {
  import opened Wrappers
  import opened Strings
  import opened PathPolicy
  import opened FileTree
  import opened UpdateManager
  import opened UpdateFlow
  import opened EmailRules

  /** The description given to the manager's backups. */
  const Description: string := "email"

  /** The most processed ids the state file keeps. */
  const MaxSavedIds: nat := 100

  /**
   * What the mail server answers during one run: whether the login works,
   * whether the search for unseen messages works and which ids it returns,
   * the headers of the messages whose header fetch works, the parts of the
   * messages whose full fetch works, and whether marking a message as read
   * or logging out raises.
   */
  datatype Mailbox = Mailbox(
    connects: bool,
    searchOk: bool,
    unseen: seq<string>,
    headers: map<string, Header>,
    messages: map<string, seq<Part>>,
    storeRaises: bool,
    logoutRaises: bool)

  /** The message fetched for `id`, if the fetch works. */
  function Fetched(box: Mailbox, id: string): Option<seq<Part>> {
    if id in box.messages then Some(box.messages[id]) else None
  }

  /** What `process_update_email` reports. */
  datatype ProcessMessage = Refused(reason: Rejection) | Finished(outcome: Outcome)

  /** What `run_once` reports; `Raised` when it ends in an exception. */
  datatype RunMessage = CouldNotConnect | NoValidEmails | Processed(message: ProcessMessage) | Raised

  /** The run deployed an update: the processed message's archive was deployed and no exception followed. */
  predicate Updated(m: RunMessage) {
    m.Processed? && m.message.Finished? && m.message.outcome.Deployed?
  }

  /** `connect` returns a connection: both credentials are set and the login works. */
  predicate Connects(address: Option<string>, password: Option<string>, box: Mailbox) {
    Truthy(address) && Truthy(password) && box.connects
  }

  /** A setting given to the constructor, or else the one `.env` defines (`given or config.get(key)`). */
  function Setting(given: Option<string>, config: map<string, string>, key: string): Option<string> {
    if Truthy(given) then given else if key in config then Some(config[key]) else None
  }

  /** The allow-list given to the constructor, or else the one `.env` defines. */
  function Senders(given: seq<string>, config: map<string, string>): seq<string> {
    if given != [] then given
    else ParseSenders(if "EMAIL_ALLOWED_SENDERS" in config then config["EMAIL_ALLOWED_SENDERS"] else "")
  }

  /**
   * `process_update_email` and what follows on the files `s0`: a rejected
   * message changes nothing; a verified archive goes through the update
   * sequence with the files its extraction gives.
   */
  function ProcessResult(s0: Files, message: Option<seq<Part>>, hash: seq<bv8> -> string,
                         extract: seq<bv8> -> Option<seq<Entry>>, name: string, metadata: string, faults: Faults,
                         deployed: set<string>, error: DeployError): (Files, ProcessMessage)
  {
    match Screen(message, hash)
    case Rejected(reason) => (s0, Refused(reason))
    case Verified(zip) =>
      var r := UpdateResult(s0, name, metadata, extract(zip), faults, deployed, error);
      (r.0, Finished(r.1))
  }

  /** A processed message, however it ends, never changes a file outside the allowed folders. */
  lemma ProcessStaysInside(s0: Files, message: Option<seq<Part>>, hash: seq<bv8> -> string,
                           extract: seq<bv8> -> Option<seq<Entry>>, name: string, metadata: string, faults: Faults,
                           deployed: set<string>, error: DeployError)
    requires forall p :: p in deployed ==> IsPathAllowed(p)
    ensures SameOutsideAllowed(s0.live, ProcessResult(s0, message, hash, extract, name, metadata, faults, deployed, error).0.live)
  {
    match Screen(message, hash)
    case Rejected(reason) =>
    case Verified(zip) =>
      UpdateStaysInside(s0, name, metadata, extract(zip), faults, deployed, error);
  }

  /**
   * Only a verified archive reaches the files: a message that changes
   * anything passed every check of `Screen`, so its archive is attached and
   * matches the attached checksum.
   */
  lemma ChangeNeedsVerified(s0: Files, message: Option<seq<Part>>, hash: seq<bv8> -> string,
                            extract: seq<bv8> -> Option<seq<Entry>>, name: string, metadata: string, faults: Faults,
                            deployed: set<string>, error: DeployError)
    requires ProcessResult(s0, message, hash, extract, name, metadata, faults, deployed, error).0 != s0
    ensures message.Some? && Screen(message, hash).Verified?
    ensures ProcessResult(s0, message, hash, extract, name, metadata, faults, deployed, error).1.Finished?
  {
  }

  /**
   * A message once processed is never a candidate again: after `run_once`
   * adds its id to the processed ids, no later check offers it, whatever
   * the inbox then holds.
   */
  lemma ProcessedNeverRetried(ids: seq<string>, processed: set<string>, headers: map<string, Header>,
                              allowed: seq<string>, id: string)
    ensures forall c :: c in Candidates(ids, processed + {id}, headers, allowed) ==> c.id != id
  {
    CandidatesMembers(ids, processed + {id}, headers, allowed);
  }

  /**
   * What the state file holds after a save: at most `MaxSavedIds` distinct
   * ids, all of them processed, and all of them when there are no more than
   * `MaxSavedIds`.
   */
  predicate SavedFrom(saved: seq<string>, ids: set<string>) {
    && |saved| == (if |ids| < MaxSavedIds then |ids| else MaxSavedIds)
    && (forall i :: 0 <= i < |saved| ==> saved[i] in ids)
    && (forall i, j :: 0 <= i < j < |saved| ==> saved[i] != saved[j])
  }

  /** The elements of a sequence. */
  function Elements(s: seq<string>): set<string> {
    set x | x in s
  }

  /** A sequence without repeats has as many elements as entries. */
  lemma {:induction false} DistinctElements(s: seq<string>)
    requires forall i, j :: 0 <= i < j < |s| ==> s[i] != s[j]
    ensures |Elements(s)| == |s|
    decreases |s|
  {
    if s != [] {
      var init := s[..|s| - 1];
      var x := s[|s| - 1];
      DistinctElements(init);
      assert Elements(s) == Elements(init) + {x};
      assert x !in Elements(init);
    }
  }

  /** A subset as large as its superset is the whole superset. */
  lemma SubsetSameSize(a: set<string>, b: set<string>)
    requires a <= b && |a| == |b|
    ensures a == b
  {
    assert b == a + (b - a) && a !! (b - a);
    assert |b - a| == 0;
  }

  /**
   * Reloading what a save wrote gives back every processed id whenever there
   * were at most `MaxSavedIds` of them; beyond that the file stays bounded.
   */
  lemma SaveReloads(saved: seq<string>, ids: set<string>)
    requires SavedFrom(saved, ids)
    ensures |saved| <= MaxSavedIds && Elements(saved) <= ids
    ensures |ids| <= MaxSavedIds ==> Elements(saved) == ids
  {
    DistinctElements(saved);
    if |ids| <= MaxSavedIds {
      SubsetSameSize(Elements(saved), ids);
    }
  }

  /** `_load_env_config`: the configuration `.env` defines; empty when there is no `.env`. */
  method LoadEnvConfig(file: Option<seq<string>>) returns (config: map<string, string>)
    ensures config == if file.None? then map[] else ParseEnv(file.value)
  {
    config := map[];
    if file.None? {
      return;
    }
    var lines := file.value;
    var i := 0;
    while i < |lines|
      invariant 0 <= i <= |lines|
      invariant config == ParseEnv(lines[..i])
    {
      EnvStep(lines, i);
      var line := Strip(lines[i]);
      if !StartsWith(line, "#") {
        var eq := IndexOf(line, '=');
        if eq.Some? {
          config := config[Strip(line[..eq.value]) := Strip(line[eq.value + 1..])];
        }
      }
      i := i + 1;
    }
    assert lines[..i] == lines;
  }

  /** One more line of `.env` read. */
  lemma EnvStep(lines: seq<string>, i: nat)
    requires i < |lines|
    ensures ParseEnv(lines[..i + 1]) == match EnvLine(lines[i])
      case None => ParseEnv(lines[..i])
      case Some(kv) => ParseEnv(lines[..i])[kv.0 := kv.1]
  {
    var defs := Definitions(lines[..i + 1]);
    assert defs[..i] == Definitions(lines[..i]);
  }

  /**
   * The walk over a message's parts in `process_update_email`, stopping at
   * the first checksum file whose payload does not decode.
   */
  method FindAttachments(parts: seq<Part>) returns (found: Attachments)
    ensures found == Scan(parts)
  {
    found := Attachments(None, None);
    var i := 0;
    while i < |parts|
      invariant 0 <= i <= |parts|
      invariant found == Scan(parts[..i]) && found.Attachments?
    {
      var p := parts[i];
      assert parts[..i + 1][..i] == parts[..i];
      if IsZipPart(p) {
        found := found.(zip := p.payload);
      } else if IsChecksumPart(p) {
        if p.text.None? {
          UndecodableStays(parts, i + 1);
          return Undecodable;
        }
        found := found.(checksum := p.text);
      }
      i := i + 1;
    }
    assert parts[..i] == parts;
  }

  /** Once the walk fails on a prefix, it fails on the whole message. */
  lemma UndecodableStays(parts: seq<Part>, n: nat)
    requires n <= |parts| && Scan(parts[..n]).Undecodable?
    ensures Scan(parts).Undecodable?
  {
    ScanUndecodable(parts[..n]);
    ScanUndecodable(parts);
    var k :| 0 <= k < n && IsChecksumPart(parts[..n][k]) && parts[..n][k].text.None?;
    assert parts[k] == parts[..n][k];
  }

  /** `EmailUpdater`: the inbox check and deployment, with the ids already processed. */
  class EmailUpdater {
    /** Ids of the messages already handled (`processed_ids`). */
    var processedIds: set<string>
    /** What the state file holds. */
    var savedIds: seq<string>
    const emailAddress: Option<string>
    const emailPassword: Option<string>
    const allowedSenders: seq<string>
    const manager: Manager

    /**
     * `__init__`: credentials and senders given to the constructor win over
     * those in `.env`; the processed ids are those of the state file.
     */
    constructor(manager: Manager, address: Option<string>, password: Option<string>, allowed: seq<string>,
                envFile: Option<seq<string>>, stateFile: Option<seq<string>>)
      ensures this.manager == manager
      ensures var config := if envFile.None? then map[] else ParseEnv(envFile.value);
        && emailAddress == Setting(address, config, "EMAIL_ADDRESS")
        && emailPassword == Setting(password, config, "EMAIL_PASSWORD")
        && allowedSenders == Senders(allowed, config)
      ensures savedIds == (if stateFile.None? then [] else stateFile.value)
      ensures processedIds == Elements(savedIds)
    {
      var config := LoadEnvConfig(envFile);
      var saved := if stateFile.None? then [] else stateFile.value;
      this.manager := manager;
      emailAddress := Setting(address, config, "EMAIL_ADDRESS");
      emailPassword := Setting(password, config, "EMAIL_PASSWORD");
      allowedSenders := Senders(allowed, config);
      savedIds := saved;
      processedIds := Elements(saved);
    }

    /**
     * `check_for_updates`: the unseen messages, in inbox order, that were
     * not processed before, whose headers could be fetched, and whose
     * subject and sender pass; nothing when the search fails.
     */
    method CheckForUpdates(box: Mailbox) returns (candidates: seq<Candidate>)
      ensures candidates == if box.searchOk then Candidates(box.unseen, processedIds, box.headers, allowedSenders) else []
    {
      candidates := [];
      if !box.searchOk {
        return;
      }
      var ids := box.unseen;
      var i := 0;
      while i < |ids|
        invariant 0 <= i <= |ids|
        invariant candidates == Candidates(ids[..i], processedIds, box.headers, allowedSenders)
      {
        var id := ids[i];
        CandidatesStep(ids, i, processedIds, box.headers, allowedSenders);
        if id !in processedIds && id in box.headers {
          var h := box.headers[id];
          if Trusted(h, allowedSenders) {
            candidates := candidates + [Candidate(id, h.subject, h.sender)];
          }
        }
        i := i + 1;
      }
      assert ids[..i] == ids;
    }

    /**
     * `process_update_email`: fetch the message, find its archive and
     * checksum, check the digest, and deploy the archive when it passes.
     */
    method ProcessUpdateEmail(box: Mailbox, id: string, hash: seq<bv8> -> string,
                              extract: seq<bv8> -> Option<seq<Entry>>, timestamp: string, metadata: string,
                              faults: Faults)
      returns (success: bool, message: ProcessMessage, ghost deployed: set<string>, ghost error: DeployError)
      modifies manager
      ensures success <==> message.Finished? && message.outcome.Deployed?
      ensures (Files(manager.live, manager.staging, manager.backups), message)
        == ProcessResult(Files(old(manager.live), old(manager.staging), old(manager.backups)), Fetched(box, id),
                         hash, extract, BackupName(timestamp, Description), metadata, faults, deployed, error)
      ensures forall p :: p in deployed ==> IsPathAllowed(p)
      ensures deployed !! faults.copyFails
    {
      deployed := {};
      error := CopyFailed("");
      if id !in box.messages {
        return false, Refused(CouldNotFetch), deployed, error;
      }
      var parts := box.messages[id];
      var found := FindAttachments(parts);
      if found.Undecodable? {
        return false, Refused(ProcessingError), deployed, error;
      }
      if found.zip.None? || found.zip.value == [] {
        return false, Refused(NoZipAttachment), deployed, error;
      }
      if found.checksum.None? || Strip(found.checksum.value) == [] {
        return false, Refused(NoChecksumFile), deployed, error;
      }
      var zip := found.zip.value;
      var checksum := Strip(found.checksum.value);
      StripIdempotent(found.checksum.value);
      WordsNonEmpty(checksum);
      assert Screen(Some(parts), hash) == Compare(zip, checksum, hash);
      var actual := hash(zip);
      var expected := Words(checksum)[0];
      if Lower(actual) != Lower(expected) {
        return false, Refused(ChecksumMismatch(Head16(expected), Head16(actual))), deployed, error;
      }
      var outcome;
      success, outcome, deployed, error := DeployZip(zip, extract, timestamp, metadata, faults);
      message := Finished(outcome);
    }

    /**
     * `_deploy_zip`: back up, clear staging, unpack the archive and stage
     * each of its files, and deploy, rolling back if the deployment fails.
     */
    method DeployZip(zip: seq<bv8>, extract: seq<bv8> -> Option<seq<Entry>>, timestamp: string, metadata: string,
                     faults: Faults)
      returns (success: bool, outcome: Outcome, ghost deployed: set<string>, ghost error: DeployError)
      modifies manager
      ensures success <==> outcome.Deployed?
      ensures (Files(manager.live, manager.staging, manager.backups), outcome)
        == UpdateResult(Files(old(manager.live), old(manager.staging), old(manager.backups)),
                        BackupName(timestamp, Description), metadata, extract(zip), faults, deployed, error)
      ensures forall p :: p in deployed ==> IsPathAllowed(p)
      ensures deployed !! faults.copyFails
    {
      deployed := {};
      error := CopyFailed("");
      ghost var s0 := Files(manager.live, manager.staging, manager.backups);
      ghost var name := BackupName(timestamp, Description);
      var backup := manager.CreateBackup(timestamp, Description, metadata, faults.backup, faults.backupCopied);
      if backup.None? {
        assert (Files(manager.live, manager.staging, manager.backups), BackupAborted)
          == UpdateResult(s0, name, metadata, extract(zip), faults, deployed, error);
        return false, BackupAborted, deployed, error;
      }
      assert manager.backups == AfterBackup(s0.live, s0.backups, name, metadata);
      var _ := manager.ClearStaging(faults.clearBefore);
      var entries := extract(zip);
      if entries.None? {
        return false, ExtractionFailed, deployed, error;
      }
      var stagedCount := StageEntries(entries.value, faults.writeFails);
      ghost var live1, staged, backups1 := manager.live, manager.staging, manager.backups;
      assert UpdateResult(s0, name, metadata, entries, faults, deployed, error)
        == DeployResult(live1, staged, backups1, stagedCount, faults, deployed, error);
      if stagedCount == 0 {
        return false, NoneStaged, deployed, error;
      }
      var ok, count, failure;
      ok, count, failure, deployed := DeployOrRollBack(manager, faults.unreadable, faults.copyFails,
                                                       faults.clearAfter, faults.rollback, faults.rollbackLeft);
      if ok {
        return true, Deployed(count), deployed, error;
      }
      error := failure.value;
      assert UpdateResult(s0, name, metadata, entries, faults, deployed, error)
        == DeployResult(live1, staged, backups1, stagedCount, faults, deployed, error);
      return false, DeploymentFailed(failure.value), deployed, error;
    }

    /**
     * The staging loop of `_deploy_zip`: stage every unpacked file,
     * counting the files `stage_file` accepted.
     */
    method StageEntries(es: seq<Entry>, writeFails: set<string>) returns (stagedCount: nat)
      modifies manager
      ensures manager.staging == StageAll(old(manager.staging), es, writeFails)
      ensures stagedCount == StagedCount(es, writeFails)
      ensures manager.live == old(manager.live) && manager.backups == old(manager.backups)
    {
      stagedCount := 0;
      var i := 0;
      while i < |es|
        invariant 0 <= i <= |es|
        invariant manager.staging == StageAll(old(manager.staging), es[..i], writeFails)
        invariant stagedCount == StagedCount(es[..i], writeFails)
        invariant manager.live == old(manager.live) && manager.backups == old(manager.backups)
      {
        var e := es[i];
        assert es[..i + 1] == es[..i] + [e];
        StageStep(old(manager.staging), es[..i], e, writeFails);
        var ok := manager.StageFile(e.path, e.content, e.path in writeFails);
        if ok {
          stagedCount := stagedCount + 1;
        }
        i := i + 1;
      }
      assert es[..i] == es;
    }

    /**
     * `_save_processed_ids`: write up to `MaxSavedIds` of the processed ids
     * to the state file, in no particular order; a failed write leaves the
     * file as it was.
     */
    method SaveProcessedIds(fails: bool)
      modifies this
      ensures processedIds == old(processedIds)
      ensures fails ==> savedIds == old(savedIds)
      ensures !fails ==> SavedFrom(savedIds, processedIds)
    {
      var rest := processedIds;
      var recent: seq<string> := [];
      while |recent| < MaxSavedIds && rest != {}
        invariant rest <= processedIds
        invariant |recent| + |rest| == |processedIds|
        invariant |recent| <= MaxSavedIds
        invariant forall i :: 0 <= i < |recent| ==> recent[i] in processedIds && recent[i] !in rest
        invariant forall i, j :: 0 <= i < j < |recent| ==> recent[i] != recent[j]
        decreases |rest|
      {
        var x :| x in rest;
        recent := recent + [x];
        rest := rest - {x};
      }
      if !fails {
        savedIds := recent;
      }
    }

    /**
     * `run_once`: connect, take the first candidate, process it, mark it
     * processed whatever happened, save the ids, and mark the message read.
     * An exception from marking the message read or from logging out ends
     * the run with `Raised`.
     */
    method RunOnce(box: Mailbox, hash: seq<bv8> -> string, extract: seq<bv8> -> Option<seq<Entry>>,
                   timestamp: string, metadata: string, faults: Faults, saveFails: bool)
      returns (updated: bool, message: RunMessage, ghost deployed: set<string>, ghost error: DeployError)
      modifies this, manager
      ensures var candidates :=
          if box.searchOk then Candidates(box.unseen, old(processedIds), box.headers, allowedSenders) else [];
        && (!Connects(emailAddress, emailPassword, box) || candidates == [] ==>
              && !updated
              && message == (if !Connects(emailAddress, emailPassword, box) then CouldNotConnect
                             else if box.logoutRaises then Raised else NoValidEmails)
              && processedIds == old(processedIds) && savedIds == old(savedIds)
              && manager.live == old(manager.live) && manager.staging == old(manager.staging)
              && manager.backups == old(manager.backups))
        && (Connects(emailAddress, emailPassword, box) && candidates != [] ==>
              var result := ProcessResult(Files(old(manager.live), old(manager.staging), old(manager.backups)),
                                          Fetched(box, candidates[0].id), hash, extract,
                                          BackupName(timestamp, Description), metadata, faults, deployed, error);
              && processedIds == old(processedIds) + {candidates[0].id}
              && (if saveFails then savedIds == old(savedIds) else SavedFrom(savedIds, processedIds))
              && Files(manager.live, manager.staging, manager.backups) == result.0
              && message == (if box.storeRaises || box.logoutRaises then Raised else Processed(result.1))
              && (updated <==> message.Processed? && result.1.Finished? && result.1.outcome.Deployed?))
      ensures updated <==> Updated(message)
      ensures forall p :: p in deployed ==> IsPathAllowed(p)
      ensures deployed !! faults.copyFails
    {
      deployed := {};
      error := CopyFailed("");
      if !Connects(emailAddress, emailPassword, box) {
        return false, CouldNotConnect, deployed, error;
      }
      var candidates := CheckForUpdates(box);
      if candidates == [] {
        if box.logoutRaises {
          return false, Raised, deployed, error;
        }
        return false, NoValidEmails, deployed, error;
      }
      var id := candidates[0].id;
      var success, processMessage;
      success, processMessage, deployed, error := ProcessUpdateEmail(box, id, hash, extract, timestamp, metadata, faults);
      processedIds := processedIds + {id};
      SaveProcessedIds(saveFails);
      if box.storeRaises || box.logoutRaises {
        return false, Raised, deployed, error;
      }
      return success, Processed(processMessage), deployed, error;
    }
  }
}
