# queuectl job lifecycle, modelled in Dafny

queuectl is a background job queue for shell commands, kept in a Postgres
`jobs` table. Clients submit jobs. Workers claim the oldest due job, run its
command, and then mark the job completed, schedule a retry with exponential
backoff, or move it to the dead-letter state (`dead`). An operator can replay
a dead job.

This project models that lifecycle engine:

- `wrappers.dfy` (module `Wrappers`): `Option` and `Result`.
- `job_store.dfy` (module `JobStore`, from db.js): the jobs table is a class
  `JobTable` with a field `jobs: map<string, Job>` keyed by id. Each SQL
  statement is a method on it. Each `now()` is a natural-number clock in
  seconds, passed in by the caller. The claim's `SELECT … ORDER BY created_at
  LIMIT 1` is the method `FindOldestEligible`. `listJobs` and `getJobCounts`
  are functions over the table.
- `worker.dfy` (module `Worker`, from worker.js): one worker step,
  `ProcessJob`. It takes the execution outcome as a function from command to
  result. It also covers the log values and the log text that `saveJobLog`
  writes, and the retry budget.
- `enqueue.dfy` (module `Enqueue`, from enqueue.js): the required-field check,
  the insert, and the duplicate-id error.
- `decimal.dfy` (module `Decimal`): the decimal text of the exit code in the
  log, and reading it back.

The model follows the code as written; in particular:

- The retry test is `job.attempts < job.max_retries` (worker.js:64). It is
  evaluated after the claim has counted the failed attempt. So `max_retries = k`
  (k ≥ 1) allows k executions in all, and a job with `max_retries = 1` is dead
  after its first failure. Reading the retry test as `attempts <= max_retries` would give
  k + 1 executions. `Worker.MaxRetriesCountsExecutions` proves the count as
  written.
- `updateJobState` and `scheduleRetry` on an unknown id return nothing and change
  nothing. They raise no not-found error.
- A value of 0 for `max_retries` becomes 3 (`job.max_retries || 3`). A negative
  value is kept, and such a job is dead after one failed run.

The column defaults of the table (`attempts` 0, `next_run_at` and `last_error`
NULL) come from the schema migration. `migrations/001_init.sql` is not part of
this model; `InsertJob` writes these defaults explicitly.

## Model

| member | source | states |
|---|---|---|
| `JobStore.JobTable.InsertJob` | db.js:40-54 | The new row has the given id and command, state pending, attempts 0, `max_retries` equal to the given value or 3 when that is absent or 0, no schedule, no error, and both timestamps now. A taken id gives `UniqueViolation` and leaves the table unchanged. Otherwise exactly one row is added and every other row is kept. The queue invariant is preserved. |
| `JobStore.FindOldestEligible` | db.js:62-76 | Returns no id exactly when no row is pending with `next_run_at` NULL or due. Otherwise the id it returns belongs to an eligible row whose `created_at` is not after that of any eligible row. |
| `JobStore.JobTable.GetAndLockJob` | db.js:57-99 | When no row is eligible, returns nothing and leaves the table unchanged. Otherwise it chooses the oldest eligible row. Only that row changes: state becomes processing, attempts goes up by exactly one, `updated_at` becomes now, and schedule and error stay. It returns the updated row. |
| `JobStore.SerialClaimsAreFifo` | db.js:62-92 | Two claims made one after the other at the same clock hand out two different rows in `created_at` order, because a claimed row is no longer eligible. (When the clock moves between them, an older row that has just become due can come second.) |
| `JobStore.JobTable.UpdateJobState` | db.js:101-112 | On a known id, sets state and `last_error` (NULL when no error is given) and `updated_at`. It keeps attempts, `next_run_at` and all other rows. An unknown id returns nothing and changes nothing. |
| `JobStore.Pow` | db.js:114-116 | The backoff delay `base^attempts` is at least 1 for a base of at least 1, and it is 0 for base 0 once the exponent is positive. |
| `JobStore.BackoffGrows` | db.js:114-116 | For a base of at least 2, each further attempt waits strictly longer. |
| `JobStore.JobTable.ScheduleRetry` | db.js:114-128 | On a known id, sets state to pending and `next_run_at` to now + base^attempts. It keeps attempts and `last_error`. An unknown id returns nothing and changes nothing. |
| `JobStore.JobTable.RetryDeadJob` | db.js:155-169 | Changes a row only when it exists and is dead. The row becomes pending with attempts 0, no error and no schedule. In every other case it returns nothing and leaves the table unchanged. The queue invariant is preserved. |
| `JobStore.ReplayedJobIsFresh` | db.js:155-169 | A replayed dead job can be claimed at any time. It has attempts 0 and no error or schedule, and it keeps its id, command, `max_retries` and `created_at`. |
| `JobStore.InsertDescPermutes` | db.js:149 | Inserting a row into the result list gives a permutation of the list plus that row. |
| `JobStore.InsertDescSorted` | db.js:149 | Inserting a row into a newest-first list keeps it newest first. |
| `JobStore.InsertDescMembers` | db.js:149 | After an insertion, the list holds exactly the old rows and the new one, and it is one longer. |
| `JobStore.ListOverSorted` | db.js:140-153 | The listing of any set of ids is ordered by `created_at`, newest first. |
| `JobStore.ListOverRows` | db.js:140-153 | The listing of a set of ids has one entry per selected id. Every entry is the table's row for a selected id, and every selected row appears. |
| `JobStore.ListJobs` | db.js:140-153 | `listJobs(s)` returns exactly the rows in state s, or every row when there is no filter. Each row appears once, newest first. |
| `JobStore.JobCounts` | db.js:130-138 | There is a count for a state exactly when some row has that state, and each count is at least 1. |
| `JobStore.GroupsPartition` | db.js:130-138 | The state groups of any set of rows partition it: their sizes add up to its size. |
| `JobStore.CountIsGroupSize` | db.js:130-138 | The count reported for a state is the number of rows in that state (zero for an absent state). |
| `JobStore.CountsSumToTotal` | db.js:130-138 | The counts of `getJobCounts` add up to the number of rows in the table. |
| `JobStore.CountsAgreeWithList` | db.js:130-153 | For every state, the count equals the length of the list filtered by that state. |
| `Worker.ErrorMessage` | worker.js:58 | The error message is the error's own message when that is non-empty, and otherwise `'Command execution failed'`; so it is never empty. |
| `Worker.LogRecordOf` | worker.js:47-60 | On success the exit code is 0. On failure the exit code is the error's code, or 1 when the code is absent or 0, so it is never 0. A present, non-empty stdout or stderr goes into the log unchanged; a missing or empty stdout is empty, and so is stderr on success. On failure an empty stderr is replaced by the error message, so stderr is never empty. |
| `Decimal.NatToString` | worker.js:31 | The exit code is printed as at least one decimal digit, with no leading zero. |
| `Decimal.ParseNatToString` | worker.js:31 | Reading the printed digits back gives the number. |
| `Decimal.TrailingDigits` | worker.js:31 | Gives the longest run of digits that ends a text. |
| `Decimal.TrailingDigitsOfNumber` | worker.js:31 | A number printed after a non-digit is read back whole from the end of the text. |
| `Worker.LogText` | worker.js:27-32 | The log text is the stdout header and stdout, then the stderr header and stderr, then the exit-code line, at these exact positions and in this order. |
| `Worker.LogExitCodeRoundTrip` | worker.js:27-32 | The exit code can be read back from the end of any log text, whatever stdout and stderr contain. |
| `Worker.Finished` | worker.js:47-70 | A claimed job ends completed, pending or dead. It keeps its id, command, attempts, `max_retries` and `created_at`. On success it is completed with no error. On failure with `attempts < max_retries` it is pending, due at now + base^attempts, and keeps its error. Otherwise it is dead, with the error message as `last_error`. |
| `Worker.ProcessJob` | worker.js:37-74 | Returns false and changes nothing exactly when no job is eligible. Otherwise only the claimed row changes. That row was the oldest eligible row. It ends as `Finished` gives for the outcome of its own command, it is no longer processing, and its attempts is one more than before. The log text is built from that outcome. The queue invariant is preserved. |
| `Worker.StepKeepsQueueInvariant` | worker.js:37-74 | After one claim-and-finish step, no row is left processing, and every dead row has attempts of at least 1 and at least `max_retries`. |
| `Worker.DueAt` | db.js:65 | The time at which a retry is next claimed is not earlier than the clock, and a pending job is eligible at that time. |
| `Worker.FailuresExhaustBudget` | worker.js:64-69 | A pending job that keeps failing stays pending, with a schedule, while `attempts < max_retries` (a budget of at least one run). On the run that uses up the budget it becomes dead with the error message. Each run adds exactly one attempt. |
| `Worker.MaxRetriesCountsExecutions` | worker.js:64-69 | A fresh job with `max_retries = k ≥ 1` that keeps failing is pending after each of the first k−1 runs and dead after run k. |
| `Worker.NonPositiveMaxRetriesDiesAfterOneRun` | worker.js:64-69 | A fresh job whose `max_retries` is 0 or negative after defaulting is dead after its first failed run. |
| `Enqueue.Validate` | enqueue.js:13-15 | A submission is accepted exactly when both id and command are present and non-empty. An accepted submission carries them unchanged. A refused one is `MissingFields`. |
| `Enqueue.EnqueueJob` | enqueue.js:3-32 | A missing or empty id or command is refused and the table is unchanged. A taken id gives `AlreadyExists(id)` and the table is unchanged. Otherwise exactly one row is added and returned: the given id and command, state pending, attempts 0, the defaulted `max_retries`, no schedule, no error, and both timestamps now. So an accepted job can be claimed at once. The queue invariant is preserved. |

## Left out

- queuectl.js (the CLI, console output, `config set/get` with its JSON file and `parseFloat`, and the status table with default zeros) and verify.js (environment checks) are I/O and are not modelled.
- `testConnection`, `runMigration` and `close` in db.js manage the connection and the schema. They are I/O.
- The connection pool, `BEGIN`/`COMMIT`/`ROLLBACK` and `FOR UPDATE SKIP LOCKED`: the claim is one atomic method. Mutual exclusion between concurrent workers is a concurrency property and is not modelled.
- `runWorker`, `startWorkers`, `stopWorkers`, `getActiveWorkers`, the `shouldStop` and `activeWorkers` globals, the one-second sleeps and the SIGINT/SIGTERM handlers: these are concurrent polling loops, timers and signals.
- Store and file errors during `processJob` are not modelled, because the in-memory table and the log value cannot fail. Because of this, `Worker.ProcessJob` and `Worker.StepKeepsQueueInvariant` promise a row that is no longer `processing`, which the source does not guarantee when one of these errors occurs. In the source, an error thrown by `saveJobLog` or by the `completed` update inside the `try` (worker.js:47-55) is handled by its own `catch` as a command failure, but only when the `catch` itself gets through: the log is then overwritten with the error, and the job is retried or dead-lettered although its command succeeded. An error from `getAndLockJob`, from the second `saveJobLog` (worker.js:62), or from `scheduleRetry` or the `dead` update inside the `catch`, reaches the loop in `runWorker` (worker.js:98-101), which logs it; a claimed row then stays `processing`. A log write that keeps failing takes that path. An example is an id containing `/`, such as `a/b`, whose log path names a directory under `logs/` that `ensureLogsDir` (worker.js:15-21) never creates. A missing `backoff-base` takes it too: `Math.pow(undefined, n)` is NaN, and the interval cast fails.
- `JobStore.JobTable.ScheduleRetry`: the interval and timestamp range error of db.js:121 is not modelled, because delay and clock are unbounded natural numbers. A Postgres interval keeps its time part in 64-bit microseconds, and timestamps end in the year 294276, so a delay above about 9.2·10^12 seconds makes the UPDATE throw. An example is `backoff-base` 10 at attempt 13, which asks for 10^13 seconds. The throw comes from the `catch` of `processJob` and reaches `runWorker`, so the row stays `processing`; the model instead schedules the retry.
- `child_process.exec` is a parameter: a function from the command text to its outcome. Only the log text is modelled, returned as a value. The `logs/` directory and the file write are not modelled.
- `loadConfig` is replaced by a `backoffBase` parameter. A missing or fractional `backoff-base` (`Math.pow` on floating point) is not modelled: base and delay are natural numbers, and timestamps are a natural-number clock in seconds.
- An error code that is a string (such as `ENOENT` when the shell cannot be started) is not modelled: the exit code is a natural number.
- `JSON.parse` of the job string is not modelled. The job arrives parsed, with optional fields. Truthiness is modelled for strings only, so an id or command of another JSON type is not modelled. `max_retries` is an optional integer.
- The state column is an enumeration. A `listJobs` filter that names no known state, and `updateJobState` with an arbitrary string, are not modelled.
- Console output is not modelled. This covers the `console.log`/`console.error` lines of `enqueueJob` (the "enqueued successfully" and "already exists" messages) and its `process.exit(1)`, for which the model returns the error value instead. It also covers the `console.log` lines of `processJob` (worker.js:45, 54, 66, 69).
- In `enqueueJob`, only the duplicate-key store error is modelled, because the in-memory insert cannot fail otherwise. The generic message for other store errors is not modelled.
- `JobStore.JobTable.constructor` (an empty table) corresponds to no statement and has no row above.
