/**
 * The jobs table and the statements run against it (db.js).
 *
 * The Postgres table becomes a map from job id (the primary key) to the row.
 * Every `now()` of a statement is a natural-number clock passed in by the
 * caller, in seconds. Each UPDATE statement is one atomic method; the row it
 * writes is given by a row-update function (Locked, WithState, Rescheduled,
 * Revived) that spells out its SET clause.
 */
module JobStore {
  import opened Wrappers

  /** The values of the `state` column. `Failed` is a legal value that no statement writes. */
  datatype State = Pending | Processing | Completed | Failed | Dead

  /** One row of the jobs table. */
  datatype Job = Job(
    id: string,
    command: string,
    state: State,
    attempts: nat,
    maxRetries: int,
    nextRunAt: Option<nat>,
    lastError: Option<string>,
    createdAt: nat,
    updatedAt: nat)

  /** What insertJob reads from the submitted job object. */
  datatype NewJob = NewJob(id: string, command: string, maxRetries: Option<int>)

  /** The store errors the model can raise: a primary-key clash (SQLSTATE 23505). */
  datatype StoreError = UniqueViolation

  /** Every row is filed under its own id. */
  ghost predicate WellKeyed(t: map<string, Job>) {
    forall id :: id in t ==> t[id].id == id
  }

  /** `job.max_retries || 3`: an absent or zero value falls back to 3. */
  function MaxRetriesOrDefault(m: Option<int>): int {
    if m.None? || m.value == 0 then 3 else m.value
  }

  /** The claim predicate: pending, and either never scheduled or due. */
  predicate Eligible(j: Job, now: nat) {
    j.state == Pending && (j.nextRunAt.None? || j.nextRunAt.value <= now)
  }

  /** `id` is an eligible row with the smallest created_at among the eligible rows. */
  ghost predicate IsOldestEligible(t: map<string, Job>, id: string, now: nat) {
    id in t && Eligible(t[id], now) &&
    forall other :: other in t && Eligible(t[other], now) ==> t[id].createdAt <= t[other].createdAt
  }

  ghost predicate NoneEligible(t: map<string, Job>, now: nat) {
    forall id :: id in t ==> !Eligible(t[id], now)
  }

  /**
   * The SELECT of getAndLockJob: `WHERE state = 'pending' AND (next_run_at IS NULL
   * OR next_run_at <= now()) ORDER BY created_at ASC LIMIT 1`. Among rows with
   * equal created_at any one may be chosen.
   */
  method FindOldestEligible(t: map<string, Job>, now: nat) returns (r: Option<string>)
    ensures r.None? <==> NoneEligible(t, now)
    ensures r.Some? ==> IsOldestEligible(t, r.value, now)
  {
    r := None;
    var todo := t.Keys;
    while todo != {}
      invariant todo <= t.Keys
      invariant r.None? ==> forall id :: id in t && id !in todo ==> !Eligible(t[id], now)
      invariant r.Some? ==> r.value in t && Eligible(t[r.value], now)
      invariant r.Some? ==> forall id :: id in t && id !in todo && Eligible(t[id], now) ==>
                              t[r.value].createdAt <= t[id].createdAt
      decreases todo
    {
      var id :| id in todo;
      if Eligible(t[id], now) && (r.None? || t[id].createdAt < t[r.value].createdAt) {
        r := Some(id);
      }
      todo := todo - {id};
    }
  }

  /** The SET clause of the claim: processing, one more attempt, touched now. */
  function Locked(j: Job, now: nat): Job {
    j.(state := Processing, attempts := j.attempts + 1, updatedAt := now)
  }

  /** The SET clause of updateJobState. */
  function WithState(j: Job, s: State, error: Option<string>, now: nat): Job {
    j.(state := s, lastError := error, updatedAt := now)
  }

  /** The SET clause of scheduleRetry, after the delay has been computed. */
  function Rescheduled(j: Job, delay: nat, now: nat): Job {
    j.(state := Pending, nextRunAt := Some(now + delay), updatedAt := now)
  }

  /** The SET clause of retryDeadJob. */
  function Revived(j: Job, now: nat): Job {
    j.(state := Pending, attempts := 0, lastError := None, nextRunAt := None, updatedAt := now)
  }

  /** `Math.pow(backoffBase, attempts)` on natural numbers. */
  function Pow(base: nat, e: nat): (r: nat)
    ensures base >= 1 ==> r >= 1
    ensures base == 0 && e >= 1 ==> r == 0
  {
    if e == 0 then 1 else base * Pow(base, e - 1)
  }

  /** With a base of at least 2 every further attempt waits strictly longer. */
  lemma BackoffGrows(base: nat, e: nat)
    requires base >= 2
    ensures Pow(base, e) < Pow(base, e + 1)
  {
  }

  /** A settled row: no worker holds it, and a finished row has run at least once. */
  ghost predicate Settled(j: Job) {
    j.state != Processing &&
    (j.state == Completed || j.state == Dead ==> j.attempts >= 1) &&
    (j.state == Dead ==> j.attempts >= j.maxRetries)
  }

  /**
   * Between steps of one worker no row is left processing, and a dead row has
   * used up its budget.
   */
  ghost predicate QueueInvariant(t: map<string, Job>) {
    forall id :: id in t ==> Settled(t[id])
  }

  class JobTable {
    var jobs: map<string, Job>

    ghost predicate Valid()
      reads this
    {
      WellKeyed(jobs)
    }

    constructor ()
      ensures Valid() && jobs == map[]
    {
      jobs := map[];
    }

    /**
     * insertJob: a pending row with attempts 0, no schedule and no error, both
     * timestamps now. An id already present is refused by the primary key.
     */
    method InsertJob(nj: NewJob, now: nat) returns (r: Result<Job, StoreError>)
      requires Valid()
      modifies this
      ensures Valid()
      ensures QueueInvariant(old(jobs)) ==> QueueInvariant(jobs)
      ensures nj.id in old(jobs) ==> r == Err(UniqueViolation) && jobs == old(jobs)
      ensures nj.id !in old(jobs) ==> r.Ok? && jobs == old(jobs)[nj.id := r.value]
      ensures r.Ok? ==>
        var j := r.value;
        j.id == nj.id && j.command == nj.command && j.state == Pending && j.attempts == 0 &&
        j.maxRetries == (if nj.maxRetries.None? || nj.maxRetries == Some(0) then 3 else nj.maxRetries.value) &&
        j.nextRunAt.None? && j.lastError.None? && j.createdAt == now && j.updatedAt == now
    {
      if nj.id in jobs {
        return Err(UniqueViolation);
      }
      var row := Job(nj.id, nj.command, Pending, 0, MaxRetriesOrDefault(nj.maxRetries), None, None, now, now);
      jobs := jobs[nj.id := row];
      r := Ok(row);
    }

    /**
     * getAndLockJob: select the oldest eligible row and, in the same atomic
     * step, mark it processing with one more attempt. Returns the updated row,
     * or nothing (and no change) when no row is eligible.
     */
    method GetAndLockJob(now: nat) returns (r: Option<Job>)
      requires Valid()
      modifies this
      ensures Valid()
      ensures r.None? <==> NoneEligible(old(jobs), now)
      ensures r.None? ==> jobs == old(jobs)
      ensures r.Some? ==>
        IsOldestEligible(old(jobs), r.value.id, now) &&
        r.value == Locked(old(jobs)[r.value.id], now) &&
        jobs == old(jobs)[r.value.id := r.value]
      ensures r.Some? ==>
        r.value.state == Processing && r.value.attempts == old(jobs)[r.value.id].attempts + 1 &&
        r.value.updatedAt == now && r.value.nextRunAt == old(jobs)[r.value.id].nextRunAt &&
        r.value.lastError == old(jobs)[r.value.id].lastError
    {
      var found := FindOldestEligible(jobs, now);
      if found.None? {
        return None;
      }
      var row := Locked(jobs[found.value], now);
      jobs := jobs[found.value := row];
      r := Some(row);
    }

    /** updateJobState: set state and last_error (the error defaults to NULL). */
    method UpdateJobState(id: string, s: State, error: Option<string>, now: nat) returns (r: Option<Job>)
      requires Valid()
      modifies this
      ensures Valid()
      ensures id !in old(jobs) ==> r.None? && jobs == old(jobs)
      ensures id in old(jobs) ==>
        r == Some(WithState(old(jobs)[id], s, error, now)) && jobs == old(jobs)[id := r.value]
      ensures id in old(jobs) ==>
        r.value.state == s && r.value.lastError == error && r.value.updatedAt == now &&
        r.value.attempts == old(jobs)[id].attempts && r.value.nextRunAt == old(jobs)[id].nextRunAt
    {
      if id !in jobs {
        return None;
      }
      var row := WithState(jobs[id], s, error, now);
      jobs := jobs[id := row];
      r := Some(row);
    }

    /**
     * scheduleRetry: back to pending, due `backoffBase ^ attempts` seconds from
     * now. The attempts column and last_error are left as they are.
     */
    method ScheduleRetry(id: string, attempts: nat, backoffBase: nat, now: nat) returns (r: Option<Job>)
      requires Valid()
      modifies this
      ensures Valid()
      ensures id !in old(jobs) ==> r.None? && jobs == old(jobs)
      ensures id in old(jobs) ==>
        r == Some(Rescheduled(old(jobs)[id], Pow(backoffBase, attempts), now)) &&
        jobs == old(jobs)[id := r.value]
      ensures id in old(jobs) ==>
        r.value.state == Pending && r.value.nextRunAt == Some(now + Pow(backoffBase, attempts)) &&
        r.value.attempts == old(jobs)[id].attempts && r.value.lastError == old(jobs)[id].lastError
    {
      if id !in jobs {
        return None;
      }
      var row := Rescheduled(jobs[id], Pow(backoffBase, attempts), now);
      jobs := jobs[id := row];
      r := Some(row);
    }

    /**
     * retryDeadJob: `WHERE id = $1 AND state = 'dead'`; the row is reset to a
     * fresh pending job. Any other id or state is a no-op returning nothing.
     */
    method RetryDeadJob(id: string, now: nat) returns (r: Option<Job>)
      requires Valid()
      modifies this
      ensures Valid()
      ensures QueueInvariant(old(jobs)) ==> QueueInvariant(jobs)
      ensures (id !in old(jobs) || old(jobs)[id].state != Dead) ==> r.None? && jobs == old(jobs)
      ensures id in old(jobs) && old(jobs)[id].state == Dead ==>
        r == Some(Revived(old(jobs)[id], now)) && jobs == old(jobs)[id := r.value]
      ensures r.Some? ==>
        r.value.state == Pending && r.value.attempts == 0 && r.value.lastError.None? && r.value.nextRunAt.None?
    {
      if id !in jobs || jobs[id].state != Dead {
        return None;
      }
      var row := Revived(jobs[id], now);
      jobs := jobs[id := row];
      r := Some(row);
    }
  }

  /** A replayed dead job is a fresh, immediately claimable pending job again. */
  lemma ReplayedJobIsFresh(j: Job, now: nat, later: nat)
    requires j.state == Dead
    ensures var r := Revived(j, now);
      Eligible(r, later) && r.attempts == 0 && r.lastError.None? && r.nextRunAt.None? &&
      r.id == j.id && r.command == j.command && r.maxRetries == j.maxRetries && r.createdAt == j.createdAt
  {
  }

  /**
   * Two claims issued one after the other at the same clock hand out two
   * different rows, in created_at order: a claimed row is no longer eligible.
   */
  lemma SerialClaimsAreFifo(t: map<string, Job>, first: string, second: string, now: nat)
    requires IsOldestEligible(t, first, now)
    requires IsOldestEligible(t[first := Locked(t[first], now)], second, now)
    ensures second != first && second in t
    ensures t[first].createdAt <= t[second].createdAt
  {
  }

  // ---------------------------------------------------------------------------
  // listJobs: SELECT * FROM jobs [WHERE state = $1] ORDER BY created_at DESC

  /** `if (state)`: no filter selects every row. */
  predicate Matches(j: Job, filter: Option<State>) {
    filter.None? || j.state == filter.value
  }

  /** The ids among `ids` whose rows pass the filter. */
  ghost function SelectedIds(t: map<string, Job>, ids: set<string>, filter: Option<State>): set<string> {
    set id | id in ids && id in t && Matches(t[id], filter)
  }

  predicate SortedDesc(rows: seq<Job>) {
    forall i, k :: 0 <= i < k < |rows| ==> rows[i].createdAt >= rows[k].createdAt
  }

  /** Places x before the first row that is not newer than it. */
  function InsertDesc(x: Job, rows: seq<Job>): seq<Job> {
    if rows == [] || x.createdAt >= rows[0].createdAt then [x] + rows
    else [rows[0]] + InsertDesc(x, rows[1..])
  }

  /** Inserting adds exactly x: the result is a permutation of the rows plus x. */
  lemma {:induction false} InsertDescPermutes(x: Job, rows: seq<Job>)
    ensures multiset(InsertDesc(x, rows)) == multiset(rows) + multiset{x}
  {
    if rows != [] && x.createdAt < rows[0].createdAt {
      InsertDescPermutes(x, rows[1..]);
      assert rows == [rows[0]] + rows[1..];
    }
  }

  /** Inserting into a newest-first list keeps it newest first. */
  lemma {:induction false} InsertDescSorted(x: Job, rows: seq<Job>)
    requires SortedDesc(rows)
    ensures SortedDesc(InsertDesc(x, rows))
  {
    var r := InsertDesc(x, rows);
    if rows == [] || x.createdAt >= rows[0].createdAt {
      forall i, k | 0 <= i < k < |r| ensures r[i].createdAt >= r[k].createdAt {
        assert r[k] == rows[k - 1];
        if i > 0 {
          assert r[i] == rows[i - 1];
        }
      }
    } else {
      var tail := InsertDesc(x, rows[1..]);
      InsertDescSorted(x, rows[1..]);
      InsertDescPermutes(x, rows[1..]);
      forall i, k | 0 <= i < k < |r| ensures r[i].createdAt >= r[k].createdAt {
        assert r[k] == tail[k - 1];
        if i > 0 {
          assert r[i] == tail[i - 1];
        } else {
          assert r[k] in multiset(tail);
        }
      }
    }
  }

  /** Some member of a non-empty set of ids: the order in which the rows are scanned. */
  ghost function PickId(ids: set<string>): (k: string)
    requires ids != {}
    ensures k in ids
  {
    var k :| k in ids; k
  }

  /** The rows filed under `ids` that pass the filter, newest first. */
  ghost function ListOver(t: map<string, Job>, ids: set<string>, filter: Option<State>): seq<Job>
    requires ids <= t.Keys
    decreases ids
  {
    if ids == {} then []
    else
      var k := PickId(ids);
      var rest := ListOver(t, ids - {k}, filter);
      if Matches(t[k], filter) then InsertDesc(t[k], rest) else rest
  }

  /** After an insertion the rows are those before it and x. */
  lemma InsertDescMembers(x: Job, rows: seq<Job>)
    ensures |InsertDesc(x, rows)| == |rows| + 1
    ensures forall y :: y in InsertDesc(x, rows) <==> y in rows || y == x
  {
    var r := InsertDesc(x, rows);
    InsertDescPermutes(x, rows);
    assert |r| == |multiset(r)|;
    forall y ensures y in r <==> y in rows || y == x {
      assert y in r <==> y in multiset(r);
      assert y in rows <==> y in multiset(rows);
    }
  }

  lemma {:induction false} ListOverSorted(t: map<string, Job>, ids: set<string>, filter: Option<State>)
    requires ids <= t.Keys
    ensures SortedDesc(ListOver(t, ids, filter))
    decreases ids
  {
    if ids != {} {
      var k := PickId(ids);
      ListOverSorted(t, ids - {k}, filter);
      if Matches(t[k], filter) {
        InsertDescSorted(t[k], ListOver(t, ids - {k}, filter));
      }
    }
  }

  /** One row per selected id, and every row listed is a selected row of the table. */
  lemma {:induction false} ListOverRows(t: map<string, Job>, ids: set<string>, filter: Option<State>)
    requires WellKeyed(t) && ids <= t.Keys
    ensures var rows := ListOver(t, ids, filter);
      |rows| == |SelectedIds(t, ids, filter)| &&
      (forall y :: y in rows ==> y.id in SelectedIds(t, ids, filter) && t[y.id] == y) &&
      (forall id :: id in SelectedIds(t, ids, filter) ==> t[id] in rows)
    decreases ids
  {
    if ids == {} {
      assert SelectedIds(t, ids, filter) == {};
    } else {
      var k := PickId(ids);
      var rest := ListOver(t, ids - {k}, filter);
      ListOverRows(t, ids - {k}, filter);
      if Matches(t[k], filter) {
        InsertDescMembers(t[k], rest);
        assert SelectedIds(t, ids, filter) == SelectedIds(t, ids - {k}, filter) + {k};
      } else {
        assert SelectedIds(t, ids, filter) == SelectedIds(t, ids - {k}, filter);
      }
    }
  }

  /**
   * listJobs: exactly the rows whose state equals the filter (every row when
   * there is none), each once, newest first.
   */
  ghost function ListJobs(t: map<string, Job>, filter: Option<State>): (rows: seq<Job>)
    requires WellKeyed(t)
    ensures SortedDesc(rows)
    ensures |rows| == |SelectedIds(t, t.Keys, filter)|
    ensures forall i :: 0 <= i < |rows| ==> rows[i].id in t && t[rows[i].id] == rows[i] && Matches(rows[i], filter)
    ensures forall id :: id in t && Matches(t[id], filter) ==> t[id] in rows
  {
    var rows := ListOver(t, t.Keys, filter);
    ListOverSorted(t, t.Keys, filter);
    ListOverRows(t, t.Keys, filter);
    assert forall i :: 0 <= i < |rows| ==> rows[i] in rows;
    rows
  }

  // ---------------------------------------------------------------------------
  // getJobCounts: SELECT state, COUNT(*) FROM jobs GROUP BY state

  ghost function StatesPresent(t: map<string, Job>): set<State> {
    set id | id in t :: t[id].state
  }

  /** One count per state that occurs in the table. */
  ghost function JobCounts(t: map<string, Job>): (counts: map<State, nat>)
    ensures forall s :: s in counts <==> exists id :: id in t && t[id].state == s
    ensures forall s :: s in counts ==> counts[s] >= 1
  {
    var counts := map s | s in StatesPresent(t) :: |SelectedIds(t, t.Keys, Some(s))|;
    assert forall s :: s in counts ==> counts[s] >= 1 by {
      forall s | s in counts ensures counts[s] >= 1 {
        var id :| id in t && t[id].state == s;
        assert id in SelectedIds(t, t.Keys, Some(s));
      }
    }
    counts
  }

  /** The count reported for a state, zero when the state has no group. */
  function CountOf(counts: map<State, nat>, s: State): nat {
    if s in counts then counts[s] else 0
  }

  function Total(counts: map<State, nat>): nat {
    CountOf(counts, Pending) + CountOf(counts, Processing) + CountOf(counts, Completed) +
    CountOf(counts, Failed) + CountOf(counts, Dead)
  }

  lemma RemoveOne(t: map<string, Job>, ids: set<string>, k: string, s: State)
    requires k in ids && ids <= t.Keys
    ensures |SelectedIds(t, ids, Some(s))| ==
            |SelectedIds(t, ids - {k}, Some(s))| + (if t[k].state == s then 1 else 0)
  {
    if t[k].state == s {
      assert SelectedIds(t, ids, Some(s)) == SelectedIds(t, ids - {k}, Some(s)) + {k};
    } else {
      assert SelectedIds(t, ids, Some(s)) == SelectedIds(t, ids - {k}, Some(s));
    }
  }

  /** The per-state groups of any set of rows partition it. */
  lemma {:induction false} GroupsPartition(t: map<string, Job>, ids: set<string>)
    requires ids <= t.Keys
    ensures |SelectedIds(t, ids, Some(Pending))| + |SelectedIds(t, ids, Some(Processing))| +
            |SelectedIds(t, ids, Some(Completed))| + |SelectedIds(t, ids, Some(Failed))| +
            |SelectedIds(t, ids, Some(Dead))| == |ids|
    decreases ids
  {
    if ids == {} {
      assert SelectedIds(t, ids, Some(Pending)) == {};
      assert SelectedIds(t, ids, Some(Processing)) == {};
      assert SelectedIds(t, ids, Some(Completed)) == {};
      assert SelectedIds(t, ids, Some(Failed)) == {};
      assert SelectedIds(t, ids, Some(Dead)) == {};
    } else {
      var k :| k in ids;
      GroupsPartition(t, ids - {k});
      RemoveOne(t, ids, k, Pending);
      RemoveOne(t, ids, k, Processing);
      RemoveOne(t, ids, k, Completed);
      RemoveOne(t, ids, k, Failed);
      RemoveOne(t, ids, k, Dead);
    }
  }

  /** Each reported count is the number of rows in that state. */
  lemma CountIsGroupSize(t: map<string, Job>, s: State)
    ensures CountOf(JobCounts(t), s) == |SelectedIds(t, t.Keys, Some(s))|
  {
    if s !in JobCounts(t) {
      assert SelectedIds(t, t.Keys, Some(s)) == {};
    }
  }

  /** getJobCounts: the counts add up to the number of rows in the table. */
  lemma {:induction false} CountsSumToTotal(t: map<string, Job>)
    ensures Total(JobCounts(t)) == |t|
  {
    GroupsPartition(t, t.Keys);
    CountIsGroupSize(t, Pending);
    CountIsGroupSize(t, Processing);
    CountIsGroupSize(t, Completed);
    CountIsGroupSize(t, Failed);
    CountIsGroupSize(t, Dead);
    assert |t.Keys| == |t|;
  }

  /** The count of a state equals the length of the list filtered by it. */
  lemma CountsAgreeWithList(t: map<string, Job>, s: State)
    requires WellKeyed(t)
    ensures CountOf(JobCounts(t), s) == |ListJobs(t, Some(s))|
  {
    CountIsGroupSize(t, s);
  }
}
