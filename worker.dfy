/**
 * One step of a worker (processJob in worker.js): claim the oldest eligible
 * job, run its command, write its log, and send the job to `completed`, to a
 * delayed retry, or to the dead-letter state.
 *
 * Running the command (child_process.exec) is a parameter: a function from
 * the command text to what the execution reported. The `backoff-base` read
 * from the configuration file is a parameter too, and so are the two clock
 * readings: the claim and the final update are separate statements, each with
 * its own `now()`.
 */
module Worker {
  import opened Wrappers
  import opened JobStore
  import Decimal

  /** What executing a command reports: its output, or the error it was rejected with. */
  datatype ExecResult =
    | Succeeded(stdout: Option<string>, stderr: Option<string>)
    | Threw(code: Option<nat>, message: Option<string>, stdout: Option<string>, stderr: Option<string>)

  /** JavaScript `value || fallback` on a string property: absent or empty falls back. */
  function OrElse(v: Option<string>, fallback: string): string {
    if v.Some? && v.value != "" then v.value else fallback
  }

  const DefaultErrorMessage := "Command execution failed"

  /** `err.message || 'Command execution failed'`: never empty. */
  function ErrorMessage(res: ExecResult): (m: string)
    requires res.Threw?
    ensures m != ""
    ensures res.message.Some? && res.message.value != "" ==> m == res.message.value
    ensures !(res.message.Some? && res.message.value != "") ==> m == DefaultErrorMessage
  {
    OrElse(res.message, DefaultErrorMessage)
  }

  /** The three values saveJobLog is given. */
  datatype LogRecord = LogRecord(stdout: string, stderr: string, exitCode: nat)

  /**
   * The log values of processJob: exit code 0 on success; on failure the
   * error's code, or 1 when it has none, and the error message standing in for
   * an empty stderr.
   */
  function LogRecordOf(res: ExecResult): (l: LogRecord)
    ensures res.Succeeded? ==> l.exitCode == 0
    ensures res.Threw? ==> l.exitCode >= 1 && l.stderr != ""
    ensures res.Threw? && (res.code.None? || res.code == Some(0)) ==> l.exitCode == 1
    ensures res.Threw? && res.code.Some? && res.code.value != 0 ==> l.exitCode == res.code.value
    ensures res.Threw? && OrElse(res.stderr, "") == "" ==> l.stderr == ErrorMessage(res)
    ensures l.stdout == OrElse(res.stdout, "")
    ensures res.Succeeded? ==> l.stderr == OrElse(res.stderr, "")
    ensures res.Threw? ==> l.stderr == OrElse(res.stderr, ErrorMessage(res))
  {
    match res
    case Succeeded(out, err) =>
      LogRecord(OrElse(out, ""), OrElse(err, ""), 0)
    case Threw(code, _, out, err) =>
      var exitCode := if code.None? || code.value == 0 then 1 else code.value;
      LogRecord(OrElse(out, ""), OrElse(err, ErrorMessage(res)), exitCode)
  }

  const StdoutHeader := "--- STDOUT ---\n"
  const StderrHeader := "\n--- STDERR ---\n"
  const ExitPrefix := "\n--- EXIT CODE: "
  const ExitSuffix := " ---\n"

  /**
   * The text saveJobLog writes: the stdout section, then the stderr section,
   * then the exit-code line.
   */
  function LogText(l: LogRecord): (text: string)
    ensures var a := |StdoutHeader| + |l.stdout|;
      var b := a + |StderrHeader| + |l.stderr|;
      |text| == b + |ExitPrefix| + |Decimal.NatToString(l.exitCode)| + |ExitSuffix| &&
      text[..|StdoutHeader|] == StdoutHeader &&
      text[|StdoutHeader|..a] == l.stdout &&
      text[a..a + |StderrHeader|] == StderrHeader &&
      text[a + |StderrHeader|..b] == l.stderr &&
      text[b..] == ExitPrefix + Decimal.NatToString(l.exitCode) + ExitSuffix
  {
    StdoutHeader + l.stdout + StderrHeader + l.stderr + ExitPrefix + Decimal.NatToString(l.exitCode) + ExitSuffix
  }

  /** Reads the exit code back from the last line of a log text. */
  function ExitCodeOfLog(text: string): Option<nat> {
    if |text| < |ExitSuffix| || text[|text| - |ExitSuffix|..] != ExitSuffix then None
    else
      var body := text[..|text| - |ExitSuffix|];
      var digits := Decimal.TrailingDigits(body);
      var before := body[..|body| - |digits|];
      if digits == [] || |before| < |ExitPrefix| || before[|before| - |ExitPrefix|..] != ExitPrefix then None
      else Some(Decimal.ParseNat(digits))
  }

  /** The exit-code line is last and carries the code, whatever stdout and stderr hold. */
  lemma LogExitCodeRoundTrip(l: LogRecord)
    ensures ExitCodeOfLog(LogText(l)) == Some(l.exitCode)
  {
    var text := LogText(l);
    var digits := Decimal.NatToString(l.exitCode);
    var before := StdoutHeader + l.stdout + StderrHeader + l.stderr + ExitPrefix;
    assert text == before + digits + ExitSuffix;
    assert text[|text| - |ExitSuffix|..] == ExitSuffix;
    var body := text[..|text| - |ExitSuffix|];
    assert body == before + digits;
    assert before[|before| - 1] == ' ';
    Decimal.TrailingDigitsOfNumber(before, l.exitCode);
    assert body[..|body| - |digits|] == before;
    assert before[|before| - |ExitPrefix|..] == ExitPrefix;
    Decimal.ParseNatToString(l.exitCode);
  }

  /**
   * The row processJob leaves behind for a claimed job j (already marked
   * processing, attempts counted) once its command reported res.
   */
  function Finished(j: Job, res: ExecResult, backoffBase: nat, now: nat): (r: Job)
    ensures r.id == j.id && r.command == j.command && r.attempts == j.attempts
    ensures r.maxRetries == j.maxRetries && r.createdAt == j.createdAt && r.updatedAt == now
    ensures r.state == Completed || r.state == Pending || r.state == Dead
    ensures res.Succeeded? ==> r.state == Completed && r.lastError.None? && r.nextRunAt == j.nextRunAt
    ensures res.Threw? && j.attempts < j.maxRetries ==>
      r.state == Pending && r.nextRunAt == Some(now + Pow(backoffBase, j.attempts)) && r.lastError == j.lastError
    ensures res.Threw? && j.attempts >= j.maxRetries ==>
      r.state == Dead && r.lastError == Some(ErrorMessage(res)) && r.nextRunAt == j.nextRunAt
  {
    if res.Succeeded? then WithState(j, Completed, None, now)
    else if j.attempts < j.maxRetries then Rescheduled(j, Pow(backoffBase, j.attempts), now)
    else WithState(j, Dead, Some(ErrorMessage(res)), now)
  }

  /** The log file of a job: `<id>.log` and its contents. */
  datatype JobLog = JobLog(jobId: string, text: string)

  /**
   * processJob. Returns false, changing nothing, when no job is eligible.
   * Otherwise exactly the claimed row changes: it is the oldest eligible row,
   * it has one more attempt, and it ends completed, pending or dead.
   */
  method ProcessJob(store: JobTable, exec: string -> ExecResult, backoffBase: nat, claimAt: nat, doneAt: nat)
    returns (processed: bool, log: Option<JobLog>)
    requires store.Valid()
    modifies store
    ensures store.Valid()
    ensures processed <==> !NoneEligible(old(store.jobs), claimAt)
    ensures !processed ==> store.jobs == old(store.jobs) && log.None?
    ensures processed ==> log.Some? && IsOldestEligible(old(store.jobs), log.value.jobId, claimAt)
    ensures processed ==>
      var id := log.value.jobId;
      id in old(store.jobs) &&
      var claimed := Locked(old(store.jobs)[id], claimAt);
      var res := exec(claimed.command);
      log.value.text == LogText(LogRecordOf(res)) &&
      store.jobs == old(store.jobs)[id := Finished(claimed, res, backoffBase, doneAt)]
    ensures processed ==>
      var id := log.value.jobId;
      id in old(store.jobs) && id in store.jobs &&
      store.jobs[id].state != Processing &&
      store.jobs[id].attempts == old(store.jobs)[id].attempts + 1
    ensures QueueInvariant(old(store.jobs)) ==> QueueInvariant(store.jobs)
  {
    var job := store.GetAndLockJob(claimAt);
    if job.None? {
      return false, None;
    }
    var claimed := job.value;
    var res := exec(claimed.command);
    var record := LogRecordOf(res);
    log := Some(JobLog(claimed.id, LogText(record)));
    if res.Succeeded? {
      var _ := store.UpdateJobState(claimed.id, Completed, None, doneAt);
    } else if claimed.attempts < claimed.maxRetries {
      var _ := store.ScheduleRetry(claimed.id, claimed.attempts, backoffBase, doneAt);
    } else {
      var _ := store.UpdateJobState(claimed.id, Dead, Some(ErrorMessage(res)), doneAt);
    }
    processed := true;
    StepKeepsQueueInvariant(old(store.jobs), claimed.id, claimAt, res, backoffBase, doneAt);
  }

  /** One worker step keeps the queue invariant. */
  lemma StepKeepsQueueInvariant(t: map<string, Job>, id: string, claimAt: nat, res: ExecResult, backoffBase: nat, doneAt: nat)
    requires id in t && Eligible(t[id], claimAt)
    ensures QueueInvariant(t) ==>
      QueueInvariant(t[id := Finished(Locked(t[id], claimAt), res, backoffBase, doneAt)])
  {
  }

  // ---------------------------------------------------------------------------
  // The retry budget: `job.attempts < job.max_retries`, evaluated after the claim
  // has counted the attempt that just failed.

  /** The number of executions a job with this max_retries gets before it is dead. */
  function Budget(maxRetries: int): nat {
    if maxRetries >= 1 then maxRetries else 1
  }

  /** The first clock reading at which a pending job may be claimed again. */
  function DueAt(j: Job, now: nat): (at: nat)
    ensures at >= now
    ensures j.state == Pending ==> Eligible(j, at)
  {
    if j.nextRunAt.Some? && j.nextRunAt.value > now then j.nextRunAt.value else now
  }

  /** n claims of j, each as soon as it is due, each failing with res. */
  function Failures(j: Job, n: nat, res: ExecResult, backoffBase: nat, now: nat): Job
    decreases n
  {
    if n == 0 then j
    else
      var at := DueAt(j, now);
      Failures(Finished(Locked(j, at), res, backoffBase, at), n - 1, res, backoffBase, at)
  }

  /**
   * Failing runs of a pending job keep it pending while the budget lasts and
   * kill it on the run that uses the budget up, with the error message recorded.
   */
  lemma {:induction false} FailuresExhaustBudget(j: Job, n: nat, res: ExecResult, backoffBase: nat, now: nat)
    requires res.Threw?
    requires j.state == Pending && 1 <= n && j.attempts + n <= Budget(j.maxRetries)
    ensures var r := Failures(j, n, res, backoffBase, now);
      r.id == j.id && r.maxRetries == j.maxRetries && r.attempts == j.attempts + n &&
      (j.attempts + n < Budget(j.maxRetries) ==> r.state == Pending && r.nextRunAt.Some?) &&
      (j.attempts + n == Budget(j.maxRetries) ==> r.state == Dead && r.lastError == Some(ErrorMessage(res)))
    decreases n
  {
    var at := DueAt(j, now);
    var next := Finished(Locked(j, at), res, backoffBase, at);
    if n > 1 {
      FailuresExhaustBudget(next, n - 1, res, backoffBase, at);
    }
  }

  /**
   * `max_retries = k` (k >= 1) allows k executions in all: a fresh job that
   * keeps failing is still pending after fewer than k runs and dead after k.
   */
  lemma MaxRetriesCountsExecutions(j: Job, res: ExecResult, backoffBase: nat, now: nat)
    requires res.Threw? && j.state == Pending && j.attempts == 0 && j.maxRetries >= 1
    ensures Failures(j, j.maxRetries, res, backoffBase, now).state == Dead
    ensures forall n :: 1 <= n < j.maxRetries ==> Failures(j, n, res, backoffBase, now).state == Pending
  {
    FailuresExhaustBudget(j, j.maxRetries, res, backoffBase, now);
    forall n | 1 <= n < j.maxRetries ensures Failures(j, n, res, backoffBase, now).state == Pending {
      FailuresExhaustBudget(j, n, res, backoffBase, now);
    }
  }

  /** A max_retries of zero or below still allows the one execution of the claim. */
  lemma NonPositiveMaxRetriesDiesAfterOneRun(j: Job, res: ExecResult, backoffBase: nat, now: nat)
    requires res.Threw? && j.state == Pending && j.attempts == 0 && j.maxRetries <= 0
    ensures Failures(j, 1, res, backoffBase, now).state == Dead
  {
    FailuresExhaustBudget(j, 1, res, backoffBase, now);
  }
}
