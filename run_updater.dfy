/**
 * The update runner: the GitHub updater is the primary source and the
 * email updater the fallback. Each cycle checks GitHub; a success resets
 * the failure counter, a failure increments it, and once the counter has
 * reached the threshold the inbox is consulted, at most once per email
 * interval. The outcomes of both checks and the current time (whole
 * seconds) are inputs.
 */
module Runner {
  import opened Wrappers
  import opened PathPolicy
  import opened FileTree
  import opened UpdateManager
  import opened UpdateFlow
  import opened EmailRules
  import GitHub
  import Email

  /** Consecutive primary failures before the fallback is consulted. */
  const GithubFailThreshold: nat := 3

  /** Seconds that must pass between two consultations of the fallback. */
  const EmailCheckInterval: int := 300

  /** The runner's two counters: `github_fail_count` and `last_email_check`. */
  datatype Counters = Counters(failCount: nat, lastEmailCheck: int)

  /** The counters of a new runner. */
  const Start: Counters := Counters(0, 0)

  /**
   * The gate of `run_once`: the primary check failed, the incremented
   * counter has reached the threshold, and the interval has passed since
   * the last consultation.
   */
  predicate Consults(c: Counters, primaryOk: bool, now: int) {
    !primaryOk && c.failCount + 1 >= GithubFailThreshold && now - c.lastEmailCheck >= EmailCheckInterval
  }

  /** The counters after one cycle of `run_once`. The fallback's result is not an input. */
  function Step(c: Counters, primaryOk: bool, now: int): Counters {
    if primaryOk then c.(failCount := 0)
    else if Consults(c, primaryOk, now) then Counters(c.failCount + 1, now)
    else c.(failCount := c.failCount + 1)
  }

  /** One cycle: whether the primary check succeeded, and when it ran. */
  datatype Cycle = Cycle(primaryOk: bool, now: int)

  /** The counters after a sequence of cycles. */
  function Run(c: Counters, trace: seq<Cycle>): Counters
    decreases |trace|
  {
    if trace == [] then c
    else
      var last := trace[|trace| - 1];
      Step(Run(c, trace[..|trace| - 1]), last.primaryOk, last.now)
  }

  /** The number of failed primary checks at the end of a trace, since its last success. */
  function TrailingFailures(trace: seq<Cycle>): nat
    decreases |trace|
  {
    if trace == [] || trace[|trace| - 1].primaryOk then 0
    else 1 + TrailingFailures(trace[..|trace| - 1])
  }

  /** When the fallback was last consulted during a trace, if it was. */
  function LastConsultation(c: Counters, trace: seq<Cycle>): Option<int>
    decreases |trace|
  {
    if trace == [] then None
    else
      var init := trace[..|trace| - 1];
      var last := trace[|trace| - 1];
      if Consults(Run(c, init), last.primaryOk, last.now) then Some(last.now)
      else LastConsultation(c, init)
  }

  /**
   * The failure counter counts the primary failures since the last
   * success; with no success in the trace, it adds them to where it started.
   */
  lemma {:induction false} FailCountIsTrailingFailures(c: Counters, trace: seq<Cycle>)
    ensures Run(c, trace).failCount
      == if TrailingFailures(trace) == |trace| then c.failCount + |trace| else TrailingFailures(trace)
    decreases |trace|
  {
    if trace != [] {
      var init := trace[..|trace| - 1];
      FailCountIsTrailingFailures(c, init);
      if !trace[|trace| - 1].primaryOk {
        assert TrailingFailures(trace) == 1 + TrailingFailures(init);
      }
    }
  }

  /**
   * From a new runner, the fallback is never consulted before the primary
   * check has failed `GithubFailThreshold` times in a row, this cycle
   * included.
   */
  lemma ConsultNeedsConsecutiveFailures(trace: seq<Cycle>, cycle: Cycle)
    requires Consults(Run(Start, trace), cycle.primaryOk, cycle.now)
    ensures TrailingFailures(trace + [cycle]) >= GithubFailThreshold
  {
    FailCountIsTrailingFailures(Start, trace);
    assert (trace + [cycle])[..|trace|] == trace;
  }

  /**
   * `last_email_check` is the time of the last consultation, or its first
   * value when there was none.
   */
  lemma {:induction false} LastCheckIsLastConsultation(c: Counters, trace: seq<Cycle>)
    ensures Run(c, trace).lastEmailCheck == match LastConsultation(c, trace)
      case None => c.lastEmailCheck
      case Some(t) => t
    decreases |trace|
  {
    if trace != [] {
      LastCheckIsLastConsultation(c, trace[..|trace| - 1]);
    }
  }

  /** Two consecutive consultations of the fallback are at least `EmailCheckInterval` apart. */
  lemma ConsultationsSpaced(c: Counters, trace: seq<Cycle>, cycle: Cycle, t: int)
    requires LastConsultation(c, trace) == Some(t)
    requires Consults(Run(c, trace), cycle.primaryOk, cycle.now)
    ensures cycle.now - t >= EmailCheckInterval
  {
    LastCheckIsLastConsultation(c, trace);
  }

  /** A cycle whose primary check succeeds never consults the fallback and clears the counter. */
  lemma SuccessResets(c: Counters, now: int)
    ensures !Consults(c, true, now) && Step(c, true, now) == Counters(0, c.lastEmailCheck)
  {
  }

  /** The deployment of `deploy_updates` succeeded. */
  predicate DeploySucceeded(d: GitHub.DeployMessage) {
    d.NoFilesToUpdate? || d.outcome.Deployed?
  }

  /** `check_github` reports success: nothing to update, or a successful deployment. */
  predicate PrimaryOk(m: GitHub.RunMessage) {
    m.NoUpdatesAvailable? || DeploySucceeded(m.message)
  }

  /** `check_github` deployed an update. */
  predicate PrimaryUpdated(m: GitHub.RunMessage) {
    m.Deployment? && DeploySucceeded(m.message)
  }

  /**
   * `check_github` on the files `s0` with checkpoint `last`: no update
   * leaves everything as it was; otherwise the allowed changed files go
   * through the update sequence.
   */
  function PrimaryResult(s0: Files, last: Option<string>, latest: Option<string>, changed: seq<string>,
                         downloads: map<string, string>, timestamp: string, metadata: string, faults: Faults,
                         deployed: set<string>, error: DeployError): (Files, GitHub.RunMessage)
  {
    if !GitHub.HasUpdates(last, latest, changed) then (s0, GitHub.NoUpdatesAvailable)
    else
      var r := UpdateResult(s0, BackupName(timestamp, GitHub.Description), metadata,
                            Some(GitHub.Downloaded(GitHub.AllowedFiles(changed), downloads)), faults, deployed, error);
      (r.0, GitHub.Deployment(GitHub.Finished(r.1)))
  }

  /**
   * A repository whose latest commit cannot be read counts as a successful
   * primary check: the counter is cleared rather than incremented.
   */
  lemma UnreadableRepositoryCountsAsSuccess(s0: Files, last: Option<string>, changed: seq<string>,
                                            downloads: map<string, string>, timestamp: string, metadata: string,
                                            faults: Faults, deployed: set<string>, error: DeployError)
    ensures var r := PrimaryResult(s0, last, None, changed, downloads, timestamp, metadata, faults, deployed, error);
      r.0 == s0 && PrimaryOk(r.1) && !PrimaryUpdated(r.1)
  {
  }

  /** A primary check, however it ends, never changes a file outside the allowed folders. */
  lemma PrimaryStaysInside(s0: Files, last: Option<string>, latest: Option<string>, changed: seq<string>,
                           downloads: map<string, string>, timestamp: string, metadata: string, faults: Faults,
                           deployed: set<string>, error: DeployError)
    requires forall p :: p in deployed ==> IsPathAllowed(p)
    ensures SameOutsideAllowed(s0.live,
      PrimaryResult(s0, last, latest, changed, downloads, timestamp, metadata, faults, deployed, error).0.live)
  {
    if GitHub.HasUpdates(last, latest, changed) {
      UpdateStaysInside(s0, BackupName(timestamp, GitHub.Description), metadata,
                        Some(GitHub.Downloaded(GitHub.AllowedFiles(changed), downloads)), faults, deployed, error);
    }
  }

  /** What `run_once` reports: the primary check's result, or the fallback's. */
  datatype Report = Primary(primary: GitHub.RunMessage) | Fallback(fallback: Email.RunMessage)

  /** The report is of a deployed update, from whichever source reported. */
  predicate ReportsUpdate(r: Report) {
    match r
    case Primary(m) => PrimaryUpdated(m)
    case Fallback(m) => Email.Updated(m)
  }

  /** `UpdateRunner`: both updaters and the counters that decide when to fall back. */
  class UpdateRunner {
    var githubFailCount: nat
    var lastEmailCheck: int
    const github: GitHub.Updater
    const email: Email.EmailUpdater

    /** Both updaters work on the one project, through the same manager. */
    predicate Valid() {
      github.manager == email.manager
    }

    /** `__init__`: both updaters over the one project; both counters start at zero. */
    constructor(github: GitHub.Updater, email: Email.EmailUpdater)
      requires github.manager == email.manager
      ensures this.github == github && this.email == email
      ensures Valid()
      ensures Counters(githubFailCount, lastEmailCheck) == Start
    {
      this.github := github;
      this.email := email;
      githubFailCount := 0;
      lastEmailCheck := 0;
    }

    /**
     * `check_github`: check, deploy what the check found, and move the
     * checkpoint to the latest commit when the deployment succeeded. No
     * update counts as success.
     */
    method CheckGithub(latest: Option<string>, changed: seq<string>, downloads: map<string, string>,
                       timestamp: string, metadata: string, faults: Faults)
      returns (success: bool, hadUpdate: bool, message: GitHub.RunMessage,
               ghost deployed: set<string>, ghost error: DeployError)
      modifies github, github.manager
      ensures (Files(github.manager.live, github.manager.staging, github.manager.backups), message)
        == PrimaryResult(Files(old(github.manager.live), old(github.manager.staging), old(github.manager.backups)),
                         old(github.lastCommitSha), latest, changed, downloads, timestamp, metadata, faults,
                         deployed, error)
      ensures success <==> PrimaryOk(message)
      ensures hadUpdate <==> PrimaryUpdated(message)
      ensures github.lastCommitSha
        == if hadUpdate then latest else GitHub.AfterCheck(old(github.lastCommitSha), latest, changed)
      ensures forall p :: p in deployed ==> IsPathAllowed(p)
      ensures deployed !! faults.copyFails
    {
      deployed := {};
      error := CopyFailed("");
      var hasUpdates, sha, files := github.CheckForUpdates(latest, changed);
      if !hasUpdates {
        return true, false, GitHub.NoUpdatesAvailable, deployed, error;
      }
      var ok, deployMessage;
      ok, deployMessage, deployed, error := github.DeployUpdates(files, downloads, timestamp, metadata, faults);
      if ok {
        github.lastCommitSha := sha;
        return true, true, GitHub.Deployment(deployMessage), deployed, error;
      }
      return false, false, GitHub.Deployment(deployMessage), deployed, error;
    }

    /** `check_email`: the fallback's run; it fails only when that run raises. */
    method CheckEmail(box: Email.Mailbox, hash: seq<bv8> -> string, extract: seq<bv8> -> Option<seq<Entry>>,
                      timestamp: string, metadata: string, faults: Faults, saveFails: bool)
      returns (success: bool, hadUpdate: bool, message: Email.RunMessage)
      modifies email, email.manager
      ensures success <==> !message.Raised?
      ensures hadUpdate <==> Email.Updated(message)
    {
      var updated;
      ghost var deployed, error;
      updated, message, deployed, error := email.RunOnce(box, hash, extract, timestamp, metadata, faults, saveFails);
      success := !message.Raised?;
      hadUpdate := updated;
    }

    /**
     * `run_once`: check GitHub; on success clear the counter, on failure
     * increment it and consult the fallback when the gate opens. Only the
     * fallback's deployment makes a failed cycle report an update. Each
     * updater's backup reads the clock and writes its metadata itself, so
     * the two carry their own timestamp and metadata.
     */
    method RunOnce(now: int, latest: Option<string>, changed: seq<string>, downloads: map<string, string>,
                   box: Email.Mailbox, hash: seq<bv8> -> string, extract: seq<bv8> -> Option<seq<Entry>>,
                   githubTimestamp: string, githubMetadata: string, emailTimestamp: string, emailMetadata: string,
                   githubFaults: Faults, emailFaults: Faults, saveFails: bool)
      returns (hadUpdate: bool, report: Report, ghost primaryOk: bool, ghost consulted: bool,
               ghost deployed: set<string>, ghost error: DeployError)
      requires Valid()
      modifies this, github, github.manager, email, email.manager
      ensures var primary := PrimaryResult(Files(old(github.manager.live), old(github.manager.staging),
                                                 old(github.manager.backups)), old(github.lastCommitSha),
                                           latest, changed, downloads, githubTimestamp, githubMetadata, githubFaults,
                                           deployed, error);
        && primaryOk == PrimaryOk(primary.1)
        && (!consulted ==>
              && report == Primary(primary.1)
              && Files(github.manager.live, github.manager.staging, github.manager.backups) == primary.0
              && email.processedIds == old(email.processedIds) && email.savedIds == old(email.savedIds))
      ensures Counters(githubFailCount, lastEmailCheck)
        == Step(Counters(old(githubFailCount), old(lastEmailCheck)), primaryOk, now)
      ensures consulted <==> Consults(Counters(old(githubFailCount), old(lastEmailCheck)), primaryOk, now)
      ensures report.Fallback? <==> consulted
      ensures hadUpdate <==> ReportsUpdate(report)
      ensures github.lastCommitSha
        == if primaryOk && GitHub.HasUpdates(old(github.lastCommitSha), latest, changed) then latest
           else GitHub.AfterCheck(old(github.lastCommitSha), latest, changed)
      ensures forall p :: p in deployed ==> IsPathAllowed(p)
      ensures deployed !! githubFaults.copyFails
    {
      var success, hadGithubUpdate, message;
      success, hadGithubUpdate, message, deployed, error := CheckGithub(latest, changed, downloads, githubTimestamp,
                                                                        githubMetadata, githubFaults);
      primaryOk := success;
      consulted := false;
      if success {
        githubFailCount := 0;
        return hadGithubUpdate, Primary(message), primaryOk, consulted, deployed, error;
      }
      githubFailCount := githubFailCount + 1;
      if githubFailCount >= GithubFailThreshold && now - lastEmailCheck >= EmailCheckInterval {
        lastEmailCheck := now;
        consulted := true;
        var _, hadEmailUpdate, emailMessage := CheckEmail(box, hash, extract, emailTimestamp, emailMetadata,
                                                          emailFaults, saveFails);
        return hadEmailUpdate, Fallback(emailMessage), primaryOk, consulted, deployed, error;
      }
      return false, Primary(message), primaryOk, consulted, deployed, error;
    }

    /** `run_single_check`: one cycle, reporting only whether it deployed an update. */
    method RunSingleCheck(now: int, latest: Option<string>, changed: seq<string>, downloads: map<string, string>,
                          box: Email.Mailbox, hash: seq<bv8> -> string, extract: seq<bv8> -> Option<seq<Entry>>,
                          githubTimestamp: string, githubMetadata: string, emailTimestamp: string,
                          emailMetadata: string, githubFaults: Faults, emailFaults: Faults, saveFails: bool)
      returns (hadUpdate: bool, ghost report: Report, ghost primaryOk: bool, ghost consulted: bool)
      requires Valid()
      modifies this, github, github.manager, email, email.manager
      ensures Counters(githubFailCount, lastEmailCheck)
        == Step(Counters(old(githubFailCount), old(lastEmailCheck)), primaryOk, now)
      ensures consulted <==> Consults(Counters(old(githubFailCount), old(lastEmailCheck)), primaryOk, now)
      ensures report.Fallback? <==> consulted
      ensures hadUpdate <==> ReportsUpdate(report)
    {
      ghost var deployed, error;
      hadUpdate, report, primaryOk, consulted, deployed, error :=
        RunOnce(now, latest, changed, downloads, box, hash, extract, githubTimestamp, githubMetadata, emailTimestamp,
                emailMetadata, githubFaults, emailFaults, saveFails);
    }
  }
}
