/**
 Progress accounting between the worker and its supervisor. Reporting threads add to an atomic
 total and may write it; writes are coalesced and can reach the pipe out of order. The last
 message before a result is a flush of the total, written after every reporting thread joined.
 */
module WorkerProgress {
  import opened Basics


  datatype Message = Policy | Progress(completed: nat) | Outcome

  /** A reporting thread: between reports, or holding the total it may still write. */
  datatype Reporter = Idle | Holding(total: nat)

  datatype Phase = Working | Flushed | Reported

  datatype Supervisor = Supervisor(policy: bool, completed: nat, renewals: nat, accepted: bool)

  datatype State = State(
    units: nat,
    reporters: seq<Reporter>,
    phase: Phase,
    pipe: seq<Message>,
    supervisor: Supervisor)

  datatype Step =
    | Report(reporter: nat, completed: nat)
    | Write(reporter: nat)
    | Coalesce(reporter: nat)
    | Flush
    | SendOutcome
    | Receive

  predicate Enabled(s: State, step: Step) {
    match step
    case Report(i, completed) =>
      s.phase.Working? && i < |s.reporters| && s.reporters[i].Idle? && 0 < completed <= U64_MAX
    case Write(i) => i < |s.reporters| && s.reporters[i].Holding?
    case Coalesce(i) => i < |s.reporters| && s.reporters[i].Holding?
    case Flush => s.phase.Working? && forall r <- s.reporters :: r.Idle?
    case SendOutcome => s.phase.Flushed?
    case Receive => s.pipe != [] && !s.supervisor.accepted
  }

  /** The total after `checked_add`; an overflow leaves the counter and reports the maximum. */
  function Added(units: nat, completed: nat): (nat, nat) {
    if units + completed <= U64_MAX then (units + completed, units + completed) else (units, U64_MAX)
  }

  /** One message of the monitor loop; only a strict increase renews the watchdog. */
  function Handled(v: Supervisor, m: Message): Supervisor {
    match m
    case Policy => v.(policy := true)
    case Progress(completed) =>
      if v.policy && completed > v.completed then v.(completed := completed, renewals := v.renewals + 1)
      else v
    case Outcome => if v.policy then v.(accepted := true) else v
  }

  function Apply(s: State, step: Step): State
    requires Enabled(s, step)
  {
    match step
    case Report(i, completed) =>
      var (units, total) := Added(s.units, completed);
      s.(units := units, reporters := s.reporters[i := Holding(total)])
    case Write(i) =>
      s.(pipe := s.pipe + [Progress(s.reporters[i].total)], reporters := s.reporters[i := Idle])
    case Coalesce(i) => s.(reporters := s.reporters[i := Idle])
    case Flush => s.(pipe := s.pipe + [Progress(s.units)], phase := Flushed)
    case SendOutcome => s.(pipe := s.pipe + [Outcome], phase := Reported)
    case Receive => s.(supervisor := Handled(s.supervisor, s.pipe[0]), pipe := s.pipe[1..])
  }

  /** The policy message is written before any thread can report. */
  function Start(reporters: nat): State {
    State(0, seq(reporters, _ => Idle), Working, [Policy], Supervisor(false, 0, 0, false))
  }

  ghost predicate Run(states: seq<State>, steps: seq<Step>) {
    && |states| == |steps| + 1
    && (exists reporters: nat :: states[0] == Start(reporters))
    && forall k :: 0 <= k < |steps| ==>
         Enabled(states[k], steps[k]) && states[k + 1] == Apply(states[k], steps[k])
  }

  /** Whether a step writes the maximum in place of a total that overflowed. */
  predicate WritesOverflow(s: State, step: Step)
    requires Enabled(s, step)
  {
    step.Write? && s.reporters[step.reporter].total > s.units
  }

  ghost predicate NoOverflowWritten(states: seq<State>, steps: seq<Step>, n: nat)
    requires Run(states, steps) && n <= |steps|
  {
    forall k :: 0 <= k < n ==> !WritesOverflow(states[k], steps[k])
  }

  // ---------------------------------------------------------------- invariants

  ghost predicate BoundedMessages(s: State) {
    && s.supervisor.completed <= s.units
    && forall i :: 0 <= i < |s.pipe| && s.pipe[i].Progress? ==> s.pipe[i].completed <= s.units
  }

  /** After the flush its message is in the pipe, or the supervisor has caught up with it. */
  ghost predicate FlushArrives(s: State) {
    !s.phase.Working? ==>
      (s.supervisor.completed == s.units && s.supervisor.policy)
      || exists i :: 0 <= i < |s.pipe| && s.pipe[i] == Progress(s.units)
                     && forall j :: 0 <= j < i ==> !s.pipe[j].Outcome?
  }

  ghost predicate Ordered(s: State) {
    && (s.supervisor.policy || (s.pipe != [] && s.pipe[0].Policy?))
    && (forall i :: 0 <= i < |s.pipe| && s.pipe[i].Policy? ==> i == 0 && !s.supervisor.policy)
    && (!s.phase.Reported? ==> forall i :: 0 <= i < |s.pipe| ==> !s.pipe[i].Outcome?)
    && (s.supervisor.accepted ==> s.supervisor.completed == s.units)
    && (s.supervisor.accepted ==> s.phase.Reported?)
    && (!s.phase.Working? ==> forall r <- s.reporters :: r.Idle?)
    && s.units <= U64_MAX
  }

  lemma StepOrdered(s: State, step: Step)
    requires Enabled(s, step) && Ordered(s) && BoundedMessages(s) && FlushArrives(s)
    ensures Ordered(Apply(s, step))
  {
    var s' := Apply(s, step);
    if step.Receive? {
      assert forall i :: 0 <= i < |s'.pipe| ==> s'.pipe[i] == s.pipe[i + 1];
    }
  }

  lemma StepFlush(s: State, step: Step)
    requires Enabled(s, step) && Ordered(s) && BoundedMessages(s) && FlushArrives(s)
    ensures FlushArrives(Apply(s, step))
  {
    var s' := Apply(s, step);
    if step.Flush? {
      assert s'.pipe[|s.pipe|] == Progress(s.units);
    } else if !s.phase.Working? && !(s.supervisor.completed == s.units && s.supervisor.policy) {
      var i :| 0 <= i < |s.pipe| && s.pipe[i] == Progress(s.units)
               && forall j :: 0 <= j < i ==> !s.pipe[j].Outcome?;
      if step.Receive? {
        if i > 0 {
          assert s'.pipe[i - 1] == Progress(s.units);
          assert forall j :: 0 <= j < i - 1 ==> s'.pipe[j] == s.pipe[j + 1];
        }
      } else {
        assert s'.pipe[i] == s.pipe[i];
        assert forall j :: 0 <= j < i ==> s'.pipe[j] == s.pipe[j];
      }
    }
  }

  lemma StepBounded(s: State, step: Step)
    requires Enabled(s, step) && BoundedMessages(s) && !WritesOverflow(s, step)
    ensures BoundedMessages(Apply(s, step))
  {
    var s' := Apply(s, step);
    if step.Receive? {
      assert forall i :: 0 <= i < |s'.pipe| ==> s'.pipe[i] == s.pipe[i + 1];
    }
  }

  lemma {:induction false} RunInv(states: seq<State>, steps: seq<Step>, k: nat)
    requires Run(states, steps) && k <= |steps| && NoOverflowWritten(states, steps, k)
    ensures Ordered(states[k]) && BoundedMessages(states[k]) && FlushArrives(states[k])
  {
    hide Apply, Enabled;
    if k == 0 {
      var n: nat :| states[0] == Start(n);
      StartInv(n);
    } else {
      RunInv(states, steps, k - 1);
      StepOrdered(states[k - 1], steps[k - 1]);
      StepFlush(states[k - 1], steps[k - 1]);
      StepBounded(states[k - 1], steps[k - 1]);
    }
  }

  lemma StartInv(reporters: nat)
    ensures var s := Start(reporters); Ordered(s) && BoundedMessages(s) && FlushArrives(s)
  {
  }

  /**
   When the supervisor accepts a result its count equals the worker's total, for every
   interleaving and every set of coalesced messages, provided no overflowed total was written.
   */
  lemma AcceptedCountIsExact(states: seq<State>, steps: seq<Step>, k: nat)
    requires Run(states, steps) && k <= |steps| && NoOverflowWritten(states, steps, k)
    requires states[k].supervisor.accepted
    ensures states[k].supervisor.completed == states[k].units
  {
    RunInv(states, steps, k);
  }

  /** The worker's total is the sum of all reports that did not overflow. */
  ghost function ReportedSum(states: seq<State>, steps: seq<Step>, n: nat): nat
    requires Run(states, steps) && n <= |steps|
  {
    if n == 0 then 0 else
      ReportedSum(states, steps, n - 1)
      + (if steps[n - 1].Report? && states[n - 1].units + steps[n - 1].completed <= U64_MAX
         then steps[n - 1].completed else 0)
  }

  lemma {:induction false} UnitsAreTheReportedSum(states: seq<State>, steps: seq<Step>, k: nat)
    requires Run(states, steps) && k <= |steps|
    ensures states[k].units == ReportedSum(states, steps, k)
  {
    if k > 0 {
      UnitsAreTheReportedSum(states, steps, k - 1);
    }
  }

  /**
   Over any stretch of any run the count never decreases, and the watchdog is renewed exactly
   when it strictly increases: there are at most as many renewals as units gained.
   */
  lemma {:induction false} WatchdogNeedsIncrease(states: seq<State>, steps: seq<Step>, i: nat, j: nat)
    requires Run(states, steps) && i <= j <= |steps|
    ensures states[i].supervisor.completed <= states[j].supervisor.completed
    ensures states[i].supervisor.renewals <= states[j].supervisor.renewals
    ensures states[j].supervisor.renewals - states[i].supervisor.renewals
            <= states[j].supervisor.completed - states[i].supervisor.completed
    ensures states[j].supervisor.renewals == states[i].supervisor.renewals
            <==> states[j].supervisor.completed == states[i].supervisor.completed
    decreases j
  {
    if i < j {
      WatchdogNeedsIncrease(states, steps, i, j - 1);
    }
  }

  // ---------------------------------------------------------------- overflow, exactly

  /** What holds whether or not an overflow is written. */
  ghost predicate Shape(s: State) {
    && (s.supervisor.policy || (s.pipe != [] && s.pipe[0].Policy?))
    && (forall i :: 0 <= i < |s.pipe| && s.pipe[i].Policy? ==> i == 0 && !s.supervisor.policy)
    && (!s.phase.Reported? ==> forall i :: 0 <= i < |s.pipe| ==> !s.pipe[i].Outcome?)
    && (!s.phase.Working? ==> forall i :: 0 <= i < |s.reporters| ==> s.reporters[i].Idle?)
    && (s.supervisor.accepted ==> s.phase.Reported?)
    && s.supervisor.completed <= U64_MAX && s.units <= U64_MAX
    && (forall i :: 0 <= i < |s.pipe| && s.pipe[i].Progress? ==> s.pipe[i].completed <= U64_MAX)
    && (forall i :: 0 <= i < |s.reporters| && s.reporters[i].Holding? ==>
          s.reporters[i].total <= s.units || s.reporters[i].total == U64_MAX)
  }

  /** A written maximum reaches the supervisor before any result does. */
  ghost predicate MaximumArrives(s: State) {
    || (s.supervisor.completed == U64_MAX && s.supervisor.policy)
    || exists i :: 0 <= i < |s.pipe| && s.pipe[i] == Progress(U64_MAX)
                   && forall j :: 0 <= j < i ==> !s.pipe[j].Outcome?
  }

  lemma StepShape(s: State, step: Step)
    requires Enabled(s, step) && Shape(s)
    ensures Shape(Apply(s, step))
  {
    var s' := Apply(s, step);
    if step.Receive? {
      assert forall i :: 0 <= i < |s'.pipe| ==> s'.pipe[i] == s.pipe[i + 1];
    }
  }

  lemma StepMaximum(s: State, step: Step)
    requires Enabled(s, step) && Shape(s)
    ensures MaximumArrives(s) || WritesOverflow(s, step) ==> MaximumArrives(Apply(s, step))
    ensures MaximumArrives(s) && !s.supervisor.accepted && Apply(s, step).supervisor.accepted ==>
              s.supervisor.completed == U64_MAX
  {
    var s' := Apply(s, step);
    if WritesOverflow(s, step) {
      assert s'.pipe[|s.pipe|] == Progress(U64_MAX);
    }
    if i :| 0 <= i < |s.pipe| && s.pipe[i] == Progress(U64_MAX)
            && forall j :: 0 <= j < i ==> !s.pipe[j].Outcome? {
      if step.Receive? {
        if i > 0 {
          assert s'.pipe[i - 1] == Progress(U64_MAX);
          assert forall j :: 0 <= j < i - 1 ==> s'.pipe[j] == s.pipe[j + 1];
        }
      } else {
        assert s'.pipe[i] == s.pipe[i];
        assert forall j :: 0 <= j < i ==> s'.pipe[j] == s.pipe[j];
      }
    }
  }

  lemma {:induction false} OverflowShows(states: seq<State>, steps: seq<Step>, k: nat)
    requires Run(states, steps) && k <= |steps|
    ensures Shape(states[k])
    ensures !NoOverflowWritten(states, steps, k) ==> MaximumArrives(states[k])
    ensures !NoOverflowWritten(states, steps, k) && states[k].supervisor.accepted ==>
              states[k].supervisor.completed == U64_MAX
  {
    hide Apply, Enabled, Shape, MaximumArrives, WritesOverflow;
    if k == 0 {
      var n: nat :| states[0] == Start(n);
      assert Shape(Start(n)) by { StartShape(n); }
    } else {
      OverflowShows(states, steps, k - 1);
      StepShape(states[k - 1], steps[k - 1]);
      StepMaximum(states[k - 1], steps[k - 1]);
      WatchdogNeedsIncrease(states, steps, k - 1, k);
      CompletedBounded(states[k]);
      AcceptedStops(states[k - 1], steps[k - 1]);
    }
  }

  lemma StartShape(reporters: nat)
    ensures Shape(Start(reporters)) && !Start(reporters).supervisor.accepted
  {
  }

  lemma CompletedBounded(s: State)
    requires Shape(s)
    ensures s.supervisor.completed <= U64_MAX
  {
  }

  /** After acceptance nothing is received, so a later overflow cannot have been written: the
      threads joined before the result was sent. */
  lemma AcceptedStops(s: State, step: Step)
    requires Enabled(s, step) && Shape(s)
    ensures s.supervisor.accepted ==> !WritesOverflow(s, step)
    ensures Apply(s, step).supervisor.accepted && !s.supervisor.accepted ==> !WritesOverflow(s, step)
  {
  }

  /**
   Exactly when the accepted count is the worker's total: if and only if no overflowed total was
   written, or the total really is the maximum.
   */
  lemma AcceptedCountIsExactUnlessOverflow(states: seq<State>, steps: seq<Step>, k: nat)
    requires Run(states, steps) && k <= |steps| && states[k].supervisor.accepted
    ensures states[k].supervisor.completed == states[k].units
            <==> NoOverflowWritten(states, steps, k) || states[k].units == U64_MAX
  {
    OverflowShows(states, steps, k);
    if NoOverflowWritten(states, steps, k) {
      AcceptedCountIsExact(states, steps, k);
    } else if states[k].units == U64_MAX {
      CompletedBounded(states[k]);
    }
  }

  /** The sum of everything the threads reported, as a caller of `report_progress` knows it. */
  function AllReports(steps: seq<Step>, n: nat): nat
    requires n <= |steps|
  {
    if n == 0 then 0
    else AllReports(steps, n - 1) + (if steps[n - 1].Report? then steps[n - 1].completed else 0)
  }

  ghost predicate HoldsNoMore(s: State) {
    forall i :: 0 <= i < |s.reporters| && s.reporters[i].Holding? ==> s.reporters[i].total <= s.units
  }

  lemma StepHoldsNoMore(s: State, step: Step)
    requires Enabled(s, step) && HoldsNoMore(s)
    requires step.Report? ==> s.units + step.completed <= U64_MAX
    ensures HoldsNoMore(Apply(s, step)) && !WritesOverflow(s, step)
    ensures Apply(s, step).units == s.units + (if step.Report? then step.completed else 0)
  {
  }

  /** While the reports fit 64 bits, the worker's total is their sum and no overflow is written. */
  lemma {:induction false} ReportsFit(states: seq<State>, steps: seq<Step>, k: nat)
    requires Run(states, steps) && k <= |steps| && AllReports(steps, k) <= U64_MAX
    ensures states[k].units == AllReports(steps, k) && HoldsNoMore(states[k])
    ensures NoOverflowWritten(states, steps, k)
  {
    hide Apply, Enabled, WritesOverflow;
    if k == 0 {
      var reporters: nat :| states[0] == Start(reporters);
    } else {
      ReportsFit(states, steps, k - 1);
      StepHoldsNoMore(states[k - 1], steps[k - 1]);
    }
  }

  /** Progress whose reports fit 64 bits is accounted exactly: an accepted count is their sum. */
  lemma AcceptedCountIsTheSum(states: seq<State>, steps: seq<Step>, k: nat)
    requires Run(states, steps) && k <= |steps| && AllReports(steps, k) <= U64_MAX
    requires states[k].supervisor.accepted
    ensures states[k].supervisor.completed == AllReports(steps, k)
  {
    ReportsFit(states, steps, k);
    AcceptedCountIsExact(states, steps, k);
  }

  // ---------------------------------------------------------------- the result arrives

  /** Once the result was sent it is in the pipe or accepted. */
  ghost predicate ResultArrives(s: State) {
    s.phase.Reported? ==> s.supervisor.accepted || exists i :: 0 <= i < |s.pipe| && s.pipe[i].Outcome?
  }

  lemma StepResult(s: State, step: Step)
    requires Enabled(s, step) && Shape(s) && ResultArrives(s)
    ensures ResultArrives(Apply(s, step))
  {
    var t := Apply(s, step);
    if i :| 0 <= i < |s.pipe| && s.pipe[i].Outcome? {
      if step.Receive? && i > 0 {
        assert t.pipe[i - 1].Outcome?;
      } else if !step.Receive? {
        assert t.pipe[i].Outcome?;
      }
    } else if step.SendOutcome? {
      assert t.pipe[|s.pipe|].Outcome?;
    }
  }

  lemma {:induction false} RunResult(states: seq<State>, steps: seq<Step>, k: nat)
    requires Run(states, steps) && k <= |steps|
    ensures Shape(states[k]) && ResultArrives(states[k])
  {
    OverflowShows(states, steps, k);
    if k > 0 {
      RunResult(states, steps, k - 1);
      StepResult(states[k - 1], steps[k - 1]);
    }
  }

  /** The result always gets through: a run that cannot continue has accepted it. */
  lemma StuckMeansAccepted(states: seq<State>, steps: seq<Step>)
    requires Run(states, steps) && states[|steps|].phase.Reported?
    requires forall step :: !Enabled(states[|steps|], step)
    ensures states[|steps|].supervisor.accepted
  {
    RunResult(states, steps, |steps|);
    assert !Enabled(states[|steps|], Receive);
  }

  /** Every larger count that arrives is taken and renews the watchdog; nothing else does. */
  lemma LargerCountsRenew(v: Supervisor, m: Message)
    ensures var after := Handled(v, m);
            && (m.Progress? && v.policy && m.completed > v.completed ==>
                  after.completed == m.completed && after.renewals == v.renewals + 1)
            && (!(m.Progress? && v.policy && m.completed > v.completed) ==>
                  after.completed == v.completed && after.renewals == v.renewals)
  {
  }
}
