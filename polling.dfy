/**
 * `LeadScraperWorkflow._wait_for_completion`: poll the job's status until it
 * ends. The status endpoint is an oracle; `polls` lists its answers in the
 * order the loop receives them (one per iteration, `poll_interval` seconds
 * apart). `get_job_status` raises when its request fails, and nothing in the
 * loop catches that, so a failed request ends the wait at once.
 */
module JobPolling {
  import opened Wrappers

  /** `ApifyJobData`: one answer of the status endpoint. */
  datatype JobData = JobData(id: string, status: string, defaultDatasetId: Option<string>)

  /** One call of `get_job_status`: the job data, or the exception raised by the request
      (timeout, transport error, an error status through `raise_for_status()`). */
  datatype StatusAnswer = Answered(job: JobData) | RequestFailed

  /** What the loop does with one answer. */
  datatype Decision =
    | Continue                  // sleep and poll again
    | Done(datasetId: string)   // return the dataset id
    | NoDatasetError            // `ValueError("Job succeeded but no dataset ID found")`
    | JobEnded(status: string)  // the job ended without a dataset
    | RequestError              // the status request raised; the exception leaves the loop

  /** The decision as written: only `SUCCEEDED` ends the wait. */
  function DecideAsWritten(a: StatusAnswer): (d: Decision)
    ensures d != Continue <==> a.RequestFailed? || a.job.status == "SUCCEEDED"
    ensures d == RequestError <==> a.RequestFailed?
    ensures d.Done? ==> a.Answered? && a.job.defaultDatasetId == Some(d.datasetId)
    ensures !d.JobEnded?
  {
    match a
    case RequestFailed => RequestError
    case Answered(job) =>
      if job.status == "SUCCEEDED" then
        match job.defaultDatasetId
        case None => NoDatasetError
        case Some(id) => Done(id)
      else Continue
  }

  /** The job states the platform never leaves without a dataset being produced. */
  const FailedStates: set<string> := {"FAILED", "ABORTED", "TIMED-OUT"}

  /** The decision the loop evidently intends: a failed, aborted or timed-out job ends the wait too. */
  function Decide(a: StatusAnswer): (d: Decision)
    ensures d != Continue <==> a.RequestFailed? || a.job.status == "SUCCEEDED" || a.job.status in FailedStates
    ensures d == RequestError <==> a.RequestFailed?
    ensures d.JobEnded? <==> a.Answered? && a.job.status in FailedStates
  {
    if a.Answered? && a.job.status in FailedStates then JobEnded(a.job.status) else DecideAsWritten(a)
  }

  /** The outcome after the given answers: the first decision that is not `Continue`,
      or `Continue` while every answer so far said to go on. */
  function Wait(decide: StatusAnswer -> Decision, polls: seq<StatusAnswer>): Decision
    decreases |polls|
  {
    if polls == [] then Continue
    else if decide(polls[0]) != Continue then decide(polls[0])
    else Wait(decide, polls[1..])
  }

  /** The wait ends with the decision of the first answer that does not say to go on. */
  lemma {:induction false} WaitIsFirstDecision(decide: StatusAnswer -> Decision, polls: seq<StatusAnswer>, i: nat)
    requires i < |polls| && decide(polls[i]) != Continue
    requires forall j :: 0 <= j < i ==> decide(polls[j]) == Continue
    ensures Wait(decide, polls) == decide(polls[i])
    decreases i
  {
    if i > 0 {
      WaitIsFirstDecision(decide, polls[1..], i - 1);
    }
  }

  /** The wait goes on exactly while every answer says to go on. */
  lemma {:induction false} WaitContinues(decide: StatusAnswer -> Decision, polls: seq<StatusAnswer>)
    ensures Wait(decide, polls) == Continue <==> forall j :: 0 <= j < |polls| ==> decide(polls[j]) == Continue
    decreases |polls|
  {
    if polls != [] {
      WaitContinues(decide, polls[1..]);
      if decide(polls[0]) == Continue {
        forall j | 0 < j < |polls| ensures decide(polls[j]) == decide(polls[1..][j - 1]) {
        }
      }
    }
  }

  /** `_wait_for_completion` with terminal failures handled: `used` answers are consumed. */
  method WaitForCompletion(polls: seq<StatusAnswer>) returns (d: Decision, used: nat)
    ensures d == Wait(Decide, polls)
    ensures used <= |polls|
    ensures d == Continue ==> used == |polls|
    ensures d != Continue ==> 0 < used && d == Decide(polls[used - 1])
  {
    d := Continue;
    used := 0;
    while used < |polls| && d == Continue
      invariant used <= |polls|
      invariant Wait(Decide, polls) == (if d == Continue then Wait(Decide, polls[used..]) else d)
      invariant d != Continue ==> 0 < used && d == Decide(polls[used - 1])
    {
      var status := polls[used];
      assert polls[used..][1..] == polls[used + 1..];
      d := Decide(status);
      used := used + 1;
    }
  }

  /** As written, a job that has failed is polled for ever: however many answers arrive,
      the loop still sleeps; the corrected decision stops at the first one. */
  lemma FailedJobPolledForever(polls: seq<StatusAnswer>)
    requires forall j :: 0 <= j < |polls| ==> polls[j].Answered? && polls[j].job.status == "FAILED"
    ensures Wait(DecideAsWritten, polls) == Continue
    ensures polls != [] ==> Wait(Decide, polls) == JobEnded("FAILED")
  {
    WaitContinues(DecideAsWritten, polls);
  }

  /** Until a job reports a failed state, the corrected wait is the wait as written. */
  lemma {:induction false} AgreesWithoutFailure(polls: seq<StatusAnswer>)
    requires forall j :: 0 <= j < |polls| ==> polls[j].Answered? ==> polls[j].job.status !in FailedStates
    ensures Wait(Decide, polls) == Wait(DecideAsWritten, polls)
    decreases |polls|
  {
    if polls != [] {
      AgreesWithoutFailure(polls[1..]);
    }
  }

  /** A successful job without a dataset is an error, never a dataset id. */
  lemma SucceededWithoutDataset(polls: seq<StatusAnswer>, i: nat)
    requires i < |polls| && polls[i].Answered? && polls[i].job.status == "SUCCEEDED" && polls[i].job.defaultDatasetId == None
    requires forall j :: 0 <= j < i ==> polls[j].Answered? && polls[j].job.status != "SUCCEEDED" && polls[j].job.status !in FailedStates
    ensures Wait(Decide, polls) == NoDatasetError
  {
    WaitIsFirstDecision(Decide, polls, i);
  }

  /** A status request that fails ends the wait with its exception, as written and corrected
      alike: there is no retry. */
  lemma FailedRequestEndsWait(polls: seq<StatusAnswer>, i: nat)
    requires i < |polls| && polls[i].RequestFailed?
    requires forall j :: 0 <= j < i ==> polls[j].Answered? && polls[j].job.status != "SUCCEEDED" && polls[j].job.status !in FailedStates
    ensures Wait(DecideAsWritten, polls) == RequestError
    ensures Wait(Decide, polls) == RequestError
  {
    WaitIsFirstDecision(DecideAsWritten, polls, i);
    WaitIsFirstDecision(Decide, polls, i);
  }
}
