/**
 * Submitting a job (enqueueJob in enqueue.js): check the required fields,
 * insert the row, and turn a primary-key clash into the "already exists"
 * error. The job arrives as an already parsed object whose fields may be
 * missing.
 */
module Enqueue {
  import opened Wrappers
  import opened JobStore

  /** The submitted job object. */
  datatype Submission = Submission(id: Option<string>, command: Option<string>, maxRetries: Option<int>)

  /** Why a submission was refused; in the CLI each ends the process with status 1. */
  datatype EnqueueError = MissingFields | AlreadyExists(id: string)

  /** A present, non-empty string: the truthiness `!job.id` and `!job.command` test. */
  predicate Truthy(v: Option<string>) {
    v.Some? && v.value != ""
  }

  /** The required-field check: both id and command must be truthy. */
  function Validate(sub: Submission): (r: Result<NewJob, EnqueueError>)
    ensures r.Ok? <==> Truthy(sub.id) && Truthy(sub.command)
    ensures r.Ok? ==> r.value.id == sub.id.value && r.value.command == sub.command.value && r.value.maxRetries == sub.maxRetries
    ensures r.Err? ==> r.error == MissingFields
  {
    if !Truthy(sub.id) || !Truthy(sub.command) then Err(MissingFields)
    else Ok(NewJob(sub.id.value, sub.command.value, sub.maxRetries))
  }

  /**
   * enqueueJob: a refused submission leaves the table as it was; an accepted
   * one adds exactly its own pending row and returns it.
   */
  method EnqueueJob(store: JobTable, sub: Submission, now: nat) returns (r: Result<Job, EnqueueError>)
    requires store.Valid()
    modifies store
    ensures store.Valid()
    ensures QueueInvariant(old(store.jobs)) ==> QueueInvariant(store.jobs)
    ensures !(Truthy(sub.id) && Truthy(sub.command)) ==> r == Err(MissingFields) && store.jobs == old(store.jobs)
    ensures Truthy(sub.id) && Truthy(sub.command) && sub.id.value in old(store.jobs) ==>
      r == Err(AlreadyExists(sub.id.value)) && store.jobs == old(store.jobs)
    ensures Truthy(sub.id) && Truthy(sub.command) && sub.id.value !in old(store.jobs) ==>
      r.Ok? && store.jobs == old(store.jobs)[sub.id.value := r.value] &&
      r.value == Job(sub.id.value, sub.command.value, Pending, 0, MaxRetriesOrDefault(sub.maxRetries), None, None, now, now)
    ensures r.Ok? ==> Eligible(r.value, now)
  {
    var checked := Validate(sub);
    if checked.Err? {
      return Err(checked.error);
    }
    var inserted := store.InsertJob(checked.value, now);
    if inserted.Err? {
      return Err(AlreadyExists(checked.value.id));
    }
    r := Ok(inserted.value);
  }
}
