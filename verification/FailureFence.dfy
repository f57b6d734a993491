/**
 The failure fence of the parallel extraction stage. Workers interleave three atomic steps per
 job (load the fence, run the job, record a failure); the fence keeps the lowest failed index.
 */
module FailureFence {
  import opened Basics

  /** Progress of one job: waiting for a worker, running, failed but not yet recorded, finished. */
  datatype JobState = Waiting | Running | Failing | Finished(skipped: bool)

  /** `fence` is `None` while the atomic still holds `usize::MAX`. */
  datatype State = State(fence: Option<nat>, jobs: seq<JobState>)

  datatype Step = Load(job: nat) | Execute(job: nat) | Record(job: nat)

  predicate Skips(fence: Option<nat>, index: nat) {
    fence.Some? && index > fence.value
  }

  function FetchMin(fence: Option<nat>, index: nat): Option<nat> {
    if fence.Some? && fence.value <= index then fence else Some(index)
  }

  predicate Enabled(s: State, step: Step) {
    step.job < |s.jobs| &&
    match step
    case Load(i) => s.jobs[i].Waiting?
    case Execute(i) => s.jobs[i].Running?
    case Record(i) => s.jobs[i].Failing?
  }

  function Apply<T, E>(runs: seq<Result<T, E>>, s: State, step: Step): State
    requires |runs| == |s.jobs| && Enabled(s, step)
  {
    var i := step.job;
    match step
    case Load(_) =>
      s.(jobs := s.jobs[i := if Skips(s.fence, i) then Finished(true) else Running])
    case Execute(_) =>
      s.(jobs := s.jobs[i := if runs[i].Err? then Failing else Finished(false)])
    case Record(_) =>
      State(FetchMin(s.fence, i), s.jobs[i := Finished(false)])
  }

  function Init(jobs: nat): State {
    State(None, seq(jobs, _ => Waiting))
  }

  /** Runs a schedule, an arbitrary interleaving of enabled worker steps. */
  ghost predicate Reaches<T, E>(runs: seq<Result<T, E>>, schedule: seq<Step>, s: State) {
    if schedule == [] then s == Init(|runs|)
    else
      var last := |schedule| - 1;
      exists before: State :: Reaches(runs, schedule[..last], before) && |before.jobs| == |runs|
        && Enabled(before, schedule[last]) && s == Apply(runs, before, schedule[last])
  }

  ghost predicate Complete(s: State) {
    forall i :: 0 <= i < |s.jobs| ==> s.jobs[i].Finished?
  }

  /** What `map_ordered` returns: `None` for a skipped job, its own result otherwise. */
  function Observed<T, E>(runs: seq<Result<T, E>>, s: State): seq<Option<Result<T, E>>>
    requires |runs| == |s.jobs|
  {
    seq(|runs|, i requires 0 <= i < |runs| =>
      if s.jobs[i] == Finished(true) then None else Some(runs[i]))
  }

  ghost predicate Inv<T, E>(runs: seq<Result<T, E>>, s: State) {
    && |s.jobs| == |runs|
    && (s.fence.Some? ==> s.fence.value < |runs| && runs[s.fence.value].Err?)
    && (forall i :: 0 <= i < |runs| && s.jobs[i] == Finished(true) ==> Skips(s.fence, i))
    && (forall i :: 0 <= i < |runs| && s.jobs[i] == Finished(false) && runs[i].Err? ==>
          s.fence.Some? && s.fence.value <= i)
    && (forall i :: 0 <= i < |runs| && s.jobs[i].Failing? ==> runs[i].Err?)
  }

  lemma StepInv<T, E>(runs: seq<Result<T, E>>, s: State, step: Step)
    requires Inv(runs, s) && Enabled(s, step)
    ensures Inv(runs, Apply(runs, s, step))
  {}

  lemma {:induction false} ReachableInv<T, E>(
    runs: seq<Result<T, E>>, schedule: seq<Step>, s: State)
    requires Reaches(runs, schedule, s)
    ensures Inv(runs, s)
    decreases |schedule|
  {
    if schedule != [] {
      var last := |schedule| - 1;
      var before: State :| Reaches(runs, schedule[..last], before) && |before.jobs| == |runs|
        && Enabled(before, schedule[last]) && s == Apply(runs, before, schedule[last]);
      ReachableInv(runs, schedule[..last], before);
      StepInv(runs, before, schedule[last]);
    }
  }

  ghost predicate LowestFailure<T, E>(runs: seq<Result<T, E>>, f: nat) {
    f < |runs| && runs[f].Err? && forall i :: 0 <= i < f ==> runs[i].Ok?
  }

  /** Every job at or below the first failure ran; only jobs above a failure may be missing. */
  ghost predicate Fenced<T, E>(
    runs: seq<Result<T, E>>, observed: seq<Option<Result<T, E>>>)
  {
    && |observed| == |runs|
    && (forall i :: 0 <= i < |runs| ==> observed[i] == Some(runs[i]) || observed[i] == None)
    && (forall f, i :: LowestFailure(runs, f) && 0 <= i <= f ==> observed[i] == Some(runs[i]))
    && ((forall i :: 0 <= i < |runs| ==> runs[i].Ok?) ==>
          forall i :: 0 <= i < |runs| ==> observed[i] == Some(runs[i]))
  }

  /** Position of the first failed job, if any. */
  function FirstFailure<T, E>(runs: seq<Result<T, E>>): (f: Option<nat>)
    ensures f.Some? ==> LowestFailure(runs, f.value)
    ensures f.None? ==> forall i :: 0 <= i < |runs| ==> runs[i].Ok?
  {
    if runs == [] then None
    else if runs[0].Err? then Some(0)
    else
      var rest := FirstFailure(runs[1..]);
      if rest.None? then
        assert forall i :: 0 < i < |runs| ==> runs[i] == runs[1..][i - 1];
        None
      else
        assert forall i :: 0 < i < |runs| ==> runs[i] == runs[1..][i - 1];
        Some(rest.value + 1)
  }

  /** `first_error.get_or_insert` over the flattened results. */
  function FirstError<T, E>(observed: seq<Option<Result<T, E>>>): Option<E> {
    if observed == [] then None
    else if observed[0].Some? && observed[0].value.Err? then Some(observed[0].value.error)
    else FirstError(observed[1..])
  }

  /** Under every interleaving no job at or below the lowest failing index is skipped. */
  lemma ScheduleNeverSkipsEarlierJobs<T, E>(
    runs: seq<Result<T, E>>, schedule: seq<Step>, s: State)
    requires Reaches(runs, schedule, s) && Complete(s)
    ensures |s.jobs| == |runs| && Fenced(runs, Observed(runs, s))
    ensures s.fence == FirstFailure(runs)
  {
    ReachableInv(runs, schedule, s);
    var first := FirstFailure(runs);
    if first.Some? {
      assert s.jobs[first.value].Finished?;
    }
    forall f, i | LowestFailure(runs, f) && 0 <= i <= f
      ensures Observed(runs, s)[i] == Some(runs[i])
    {
    }
  }

  lemma {:induction false} FirstErrorAt<T, E>(observed: seq<Option<Result<T, E>>>, f: nat)
    requires f < |observed| && observed[f].Some? && observed[f].value.Err?
    requires forall i :: 0 <= i < f ==> !(observed[i].Some? && observed[i].value.Err?)
    ensures FirstError(observed) == Some(observed[f].value.error)
  {
    if f > 0 {
      FirstErrorAt(observed[1..], f - 1);
    }
  }

  lemma {:induction false} NoFirstError<T, E>(observed: seq<Option<Result<T, E>>>)
    requires forall i :: 0 <= i < |observed| ==> !(observed[i].Some? && observed[i].value.Err?)
    ensures FirstError(observed) == None
  {
    if observed != [] {
      NoFirstError(observed[1..]);
    }
  }

  /** The reported error is the one at the lowest failing index, whatever the schedule was. */
  lemma ReportedErrorIsScheduleIndependent<T, E>(
    runs: seq<Result<T, E>>, observed: seq<Option<Result<T, E>>>)
    requires Fenced(runs, observed)
    ensures FirstError(observed) ==
            (match FirstFailure(runs) case None => None case Some(f) => Some(runs[f].error))
  {
    var first := FirstFailure(runs);
    if first.Some? {
      assert LowestFailure(runs, first.value);
      assert forall i :: 0 <= i <= first.value ==> observed[i] == Some(runs[i]);
      FirstErrorAt(observed, first.value);
    } else {
      NoFirstError(observed);
    }
  }

  /** Two complete runs of the same jobs report the same error. */
  lemma SchedulesAgree<T, E>(
    runs: seq<Result<T, E>>, schedule: seq<Step>, s: State, schedule': seq<Step>, s': State)
    requires Reaches(runs, schedule, s) && Complete(s)
    requires Reaches(runs, schedule', s') && Complete(s')
    ensures |s.jobs| == |s'.jobs| == |runs|
    ensures FirstError(Observed(runs, s)) == FirstError(Observed(runs, s'))
  {
    ScheduleNeverSkipsEarlierJobs(runs, schedule, s);
    ScheduleNeverSkipsEarlierJobs(runs, schedule', s');
    ReportedErrorIsScheduleIndependent(runs, Observed(runs, s));
    ReportedErrorIsScheduleIndependent(runs, Observed(runs, s'));
  }

  // ---------------------------------------------------------------- later jobs are spared

  /** A recorded failure lowers the fence to its index or below, for good. */
  lemma {:induction false} RecordLowersTheFence<T, E>(
    runs: seq<Result<T, E>>, schedule: seq<Step>, s: State, m: nat)
    requires Reaches(runs, schedule, s) && m < |schedule| && schedule[m].Record?
    ensures s.fence.Some? && s.fence.value <= schedule[m].job
    decreases |schedule|
  {
    var last := |schedule| - 1;
    var before: State :| Reaches(runs, schedule[..last], before) && |before.jobs| == |runs|
      && Enabled(before, schedule[last]) && s == Apply(runs, before, schedule[last]);
    if m < last {
      RecordLowersTheFence(runs, schedule[..last], before, m);
    }
  }

  /** A job that is loaded after the failure of an earlier job was recorded is never run. */
  lemma {:induction false} RecordedFailureSparesLaterJobs<T, E>(
    runs: seq<Result<T, E>>, schedule: seq<Step>, s: State, m: nat, n: nat)
    requires Reaches(runs, schedule, s) && m < n < |schedule|
    requires schedule[m].Record? && schedule[n].Load? && schedule[m].job < schedule[n].job
    ensures schedule[n].job < |s.jobs| && s.jobs[schedule[n].job] == Finished(true)
    decreases |schedule|
  {
    var last := |schedule| - 1;
    var before: State :| Reaches(runs, schedule[..last], before) && |before.jobs| == |runs|
      && Enabled(before, schedule[last]) && s == Apply(runs, before, schedule[last]);
    if n < last {
      RecordedFailureSparesLaterJobs(runs, schedule[..last], before, m, n);
    } else {
      RecordLowersTheFence(runs, schedule[..last], before, m);
    }
  }
}
