/**
 The single-flight presentation cache: requests for a snapshot's context share one load. Each
 critical section of the mutex is one atomic step; the load and the notification are steps of
 their own. A `notified()` future created under the lock is woken by the next `notify_waiters`.
 */
module PresentationCache {
  import opened Basics

  type SnapshotId = string

  datatype Context = Loaded(snapshot: SnapshotId) | Unavailable

  /** A request: about to take the lock, asleep on a notification, loading, holding a loaded
      result, about to notify, or returned. */
  datatype Request =
    | Entering
    | Asleep(notification: nat)
    | Loading(notification: nat)
    | Storing(notification: nat, result: Context)
    | Announcing(notification: nat, result: Context)
    | Returned(context: Context)

  datatype State = State(
    wanted: seq<SnapshotId>,
    requests: seq<Request>,
    ready: Option<(SnapshotId, Context)>,
    loading: Option<nat>,
    notifications: nat,
    notified: set<nat>)

  datatype Step =
    | Lock(request: nat)
    | Wake(request: nat)
    | FinishLoad(request: nat, success: bool)
    | Store(request: nat)
    | NotifyWaiters(request: nat)

  predicate Enabled(s: State, step: Step) {
    |s.requests| == |s.wanted| && step.request < |s.requests| &&
    var r := s.requests[step.request];
    match step
    case Lock(_) => r.Entering?
    case Wake(_) => r.Asleep? && r.notification in s.notified
    case FinishLoad(_, _) => r.Loading?
    case Store(_) => r.Storing?
    case NotifyWaiters(_) => r.Announcing?
  }

  function Apply(s: State, step: Step): State
    requires Enabled(s, step)
  {
    var i := step.request;
    var r := s.requests[i];
    match step
    case Lock(_) =>
      if s.ready.Some? && s.ready.value.0 == s.wanted[i] then
        s.(requests := s.requests[i := Returned(s.ready.value.1)])
      else if s.loading.Some? then
        s.(requests := s.requests[i := Asleep(s.loading.value)])
      else
        s.(requests := s.requests[i := Loading(s.notifications)],
           loading := Some(s.notifications), notifications := s.notifications + 1)
    case Wake(_) => s.(requests := s.requests[i := Entering])
    case FinishLoad(_, success) =>
      s.(requests := s.requests[i :=
           Storing(r.notification, if success then Loaded(s.wanted[i]) else Unavailable)])
    case Store(_) =>
      s.(requests := s.requests[i := Announcing(r.notification, r.result)], loading := None,
         ready := if r.result.Loaded? then Some((s.wanted[i], r.result)) else s.ready)
    case NotifyWaiters(_) =>
      s.(requests := s.requests[i := Returned(r.result)], notified := s.notified + {r.notification})
  }

  /** Any number of requests for any snapshots, over a cache that is empty or holds a load. */
  ghost predicate Initial(s: State) {
    && |s.requests| == |s.wanted|
    && (forall i :: 0 <= i < |s.requests| ==> s.requests[i].Entering?)
    && (s.ready.Some? ==> s.ready.value.1 == Loaded(s.ready.value.0))
    && s.loading.None? && s.notifications == 0 && s.notified == {}
  }

  ghost predicate Run(states: seq<State>, steps: seq<Step>) {
    && |states| == |steps| + 1 && Initial(states[0])
    && forall k :: 0 <= k < |steps| ==>
         Enabled(states[k], steps[k]) && states[k + 1] == Apply(states[k], steps[k])
  }

  // ---------------------------------------------------------------- safety

  predicate InFlight(r: Request) { r.Loading? || r.Storing? }

  predicate Announces(r: Request, n: nat) { r.Announcing? && r.notification == n }

  ghost predicate Honest(s: State, i: nat)
    requires i < |s.requests| && |s.wanted| == |s.requests|
  {
    match s.requests[i]
    case Storing(_, result) => result == Loaded(s.wanted[i]) || result == Unavailable
    case Announcing(_, result) => result == Loaded(s.wanted[i]) || result == Unavailable
    case Returned(context) => context == Loaded(s.wanted[i]) || context == Unavailable
    case _ => true
  }

  /** A sleeper waits for the load in flight, for an announcement still to come, or is woken. */
  ghost predicate WillWake(s: State, n: nat) {
    || s.loading == Some(n) || n in s.notified
    || exists j :: 0 <= j < |s.requests| && Announces(s.requests[j], n)
  }

  ghost predicate AllHonest(s: State) {
    && |s.requests| == |s.wanted|
    && (s.ready.Some? ==> s.ready.value.1 == Loaded(s.ready.value.0))
    && (forall i :: 0 <= i < |s.requests| ==> Honest(s, i))
  }

  /** One load at a time, and `loading` names it. */
  ghost predicate OneFlight(s: State) {
    && (s.loading.Some? ==> exists j :: 0 <= j < |s.requests| && InFlight(s.requests[j]))
    && (forall i :: 0 <= i < |s.requests| && InFlight(s.requests[i]) ==>
          s.loading == Some(s.requests[i].notification))
    && (forall i, j :: 0 <= i < j < |s.requests| && InFlight(s.requests[i]) ==> !InFlight(s.requests[j]))
  }

  /** Notifications are used in order and once. */
  ghost predicate Numbered(s: State) {
    && (s.loading.Some? ==> s.loading.value < s.notifications && s.loading.value !in s.notified)
    && (forall i :: 0 <= i < |s.requests| && s.requests[i].Announcing? ==>
          s.requests[i].notification < s.notifications && s.loading != Some(s.requests[i].notification))
    && (forall n :: n in s.notified ==> n < s.notifications)
  }

  ghost predicate SleepersWake(s: State) {
    forall i :: 0 <= i < |s.requests| && s.requests[i].Asleep? ==> WillWake(s, s.requests[i].notification)
  }

  ghost predicate Inv(s: State) {
    AllHonest(s) && OneFlight(s) && Numbered(s) && SleepersWake(s)
  }

  lemma WakeKept(s: State, step: Step, n: nat)
    requires Inv(s) && Enabled(s, step) && WillWake(s, n)
    ensures WillWake(Apply(s, step), n)
  {
    var s' := Apply(s, step);
    if j :| 0 <= j < |s.requests| && Announces(s.requests[j], n) {
      if j == step.request {
        assert n in s'.notified;
      } else {
        assert Announces(s'.requests[j], n);
      }
    } else if s.loading == Some(n) && step.Store? {
      assert InFlight(s.requests[step.request]);
      assert Announces(s'.requests[step.request], n);
    }
  }

  lemma StepHonest(s: State, step: Step)
    requires AllHonest(s) && Enabled(s, step)
    ensures AllHonest(Apply(s, step))
  {
    assert Honest(s, step.request);
    var s' := Apply(s, step);
    forall k | 0 <= k < |s'.requests|
      ensures Honest(s', k)
    {
      assert Honest(s, k);
    }
  }

  lemma StepFlight(s: State, step: Step)
    requires OneFlight(s) && Enabled(s, step)
    ensures OneFlight(Apply(s, step))
  {
    var s' := Apply(s, step);
    if s'.loading.Some? {
      if s.loading.Some? {
        var j :| 0 <= j < |s.requests| && InFlight(s.requests[j]);
        assert InFlight(s'.requests[j]);
      } else {
        assert InFlight(s'.requests[step.request]);
      }
    }
  }

  lemma StepNumbered(s: State, step: Step)
    requires OneFlight(s) && Numbered(s) && Enabled(s, step)
    ensures Numbered(Apply(s, step))
  {
    if step.Store? || step.NotifyWaiters? {
      assert s.requests[step.request].Announcing? || InFlight(s.requests[step.request]);
    }
  }

  lemma StepSleepers(s: State, step: Step)
    requires Inv(s) && Enabled(s, step)
    ensures SleepersWake(Apply(s, step))
  {
    hide WillWake;
    var s' := Apply(s, step);
    forall k | 0 <= k < |s'.requests| && s'.requests[k].Asleep?
      ensures WillWake(s', s'.requests[k].notification)
    {
      if k != step.request {
        WakeKept(s, step, s.requests[k].notification);
      } else {
        assert WillWake(s', s'.loading.value) by { LoadingWakes(s'); }
      }
    }
  }

  lemma LoadingWakes(s: State)
    requires s.loading.Some?
    ensures WillWake(s, s.loading.value)
  {
  }

  lemma StepInv(s: State, step: Step)
    requires Inv(s) && Enabled(s, step)
    ensures Inv(Apply(s, step))
  {
    hide AllHonest, OneFlight, Numbered, SleepersWake, Apply;
    StepHonest(s, step);
    StepFlight(s, step);
    StepNumbered(s, step);
    StepSleepers(s, step);
  }

  lemma {:induction false} RunInv(states: seq<State>, steps: seq<Step>, k: nat)
    requires Run(states, steps) && k <= |steps|
    ensures Inv(states[k])
  {
    if k > 0 {
      RunInv(states, steps, k - 1);
      StepInv(states[k - 1], steps[k - 1]);
    }
  }

  /**
   In every interleaving at most one load is in flight, the ready slot only holds a context that
   was loaded for its id, and every returned context was loaded for the requested snapshot or is
   marked unavailable.
   */
  lemma SingleFlight(states: seq<State>, steps: seq<Step>, k: nat)
    requires Run(states, steps) && k <= |steps|
    ensures var s := states[k];
            && |s.requests| == |s.wanted|
            && (forall i, j :: 0 <= i < j < |s.requests| ==>
                  !(InFlight(s.requests[i]) && InFlight(s.requests[j])))
            && (s.ready.Some? ==> s.ready.value.1 == Loaded(s.ready.value.0))
            && (forall i :: 0 <= i < |s.requests| && s.requests[i].Returned? ==>
                  s.requests[i].context == Loaded(s.wanted[i]) || s.requests[i].context == Unavailable)
  {
    RunInv(states, steps, k);
    var s := states[k];
    forall i | 0 <= i < |s.requests| && s.requests[i].Returned?
      ensures s.requests[i].context == Loaded(s.wanted[i]) || s.requests[i].context == Unavailable
    {
      assert Honest(s, i);
    }
  }

  // ---------------------------------------------------------------- no lost wake-ups

  /** As long as a request has not returned, some step is enabled: nobody sleeps for ever. */
  lemma NobodySleepsForEver(s: State, i: nat)
    requires Inv(s) && i < |s.requests| && !s.requests[i].Returned?
    ensures exists step :: Enabled(s, step)
  {
    var r := s.requests[i];
    match r {
      case Entering => assert Enabled(s, Lock(i));
      case Loading(_) => assert Enabled(s, FinishLoad(i, true));
      case Storing(_, _) => assert Enabled(s, Store(i));
      case Announcing(_, _) => assert Enabled(s, NotifyWaiters(i));
      case Asleep(n) =>
        if n in s.notified {
          assert Enabled(s, Wake(i));
        } else if s.loading == Some(n) {
          var j :| 0 <= j < |s.requests| && InFlight(s.requests[j]);
          assert Enabled(s, FinishLoad(j, true)) || Enabled(s, Store(j));
        } else {
          var j :| 0 <= j < |s.requests| && Announces(s.requests[j], n);
          assert Enabled(s, NotifyWaiters(j));
        }
    }
  }

  /** Steps a request can still take before it loads or returns: a sleeper behind another load may
      have to sleep once more. */
  function Patience(r: Request, loading: Option<nat>): nat {
    match r
    case Entering => if loading.Some? then 2 else 0
    case Asleep(n) => if loading.Some? && loading.value != n then 3 else 1
    case Loading(_) => 3
    case Storing(_, _) => 2
    case Announcing(_, _) => 1
    case Returned(_) => 0
  }

  /** A request that has not started loading may still start a load and set everyone back. */
  predicate MayLoad(r: Request) { r.Entering? || r.Asleep? }

  function Weight(r: Request, loading: Option<nat>, each: nat): nat {
    Patience(r, loading) + (if MayLoad(r) then each else 0)
  }

  function Total(rs: seq<Request>, loading: Option<nat>, each: nat): nat {
    if rs == [] then 0 else Weight(rs[0], loading, each) + Total(rs[1..], loading, each)
  }

  /** Every load is paid for by the request that starts it. */
  function Rank(s: State): nat {
    Total(s.requests, s.loading, 2 * |s.requests| + 4)
  }

  lemma {:induction false} TotalUpdate(rs: seq<Request>, loading: Option<nat>, each: nat, i: nat, r: Request)
    requires i < |rs|
    ensures Total(rs[i := r], loading, each)
            == Total(rs, loading, each) - Weight(rs[i], loading, each) + Weight(r, loading, each)
  {
    if i > 0 {
      TotalUpdate(rs[1..], loading, each, i - 1, r);
      assert rs[i := r][1..] == rs[1..][i - 1 := r];
    } else {
      assert rs[0 := r][1..] == rs[1..];
    }
  }

  lemma {:induction false} TotalClears(rs: seq<Request>, n: nat, each: nat)
    ensures Total(rs, None, each) <= Total(rs, Some(n), each)
  {
    if rs != [] {
      TotalClears(rs[1..], n, each);
    }
  }

  lemma {:induction false} TotalStarts(rs: seq<Request>, n: nat, each: nat)
    ensures Total(rs, Some(n), each) <= Total(rs, None, each) + 2 * |rs|
  {
    if rs != [] {
      TotalStarts(rs[1..], n, each);
    }
  }

  /** Every step brings the requests closer to returning. */
  lemma StepRank(s: State, step: Step)
    requires Inv(s) && Enabled(s, step)
    ensures Rank(Apply(s, step)) < Rank(s)
  {
    var s' := Apply(s, step);
    var i, each := step.request, 2 * |s.requests| + 4;
    TotalUpdate(s.requests, s.loading, each, i, s'.requests[i]);
    if step.Store? {
      assert InFlight(s.requests[i]);
      TotalClears(s'.requests, s.loading.value, each);
    } else if step.Lock? && s.loading.None? && s'.loading.Some? {
      TotalStarts(s'.requests, s'.loading.value, each);
    }
  }

  /**
   Every run is finite, with a bound fixed by its first state; a run that cannot continue has
   answered every request.
   */
  lemma {:induction false} EveryRunIsBounded(states: seq<State>, steps: seq<Step>, k: nat)
    requires Run(states, steps) && k <= |steps|
    ensures k + Rank(states[k]) <= Rank(states[0])
  {
    hide Rank, Apply, Inv;
    if k > 0 {
      EveryRunIsBounded(states, steps, k - 1);
      RunInv(states, steps, k - 1);
      StepRank(states[k - 1], steps[k - 1]);
    }
  }

  lemma StuckMeansAnswered(states: seq<State>, steps: seq<Step>)
    requires Run(states, steps)
    requires forall step :: !Enabled(states[|steps|], step)
    ensures forall i :: 0 <= i < |states[|steps|].requests| ==> states[|steps|].requests[i].Returned?
  {
    RunInv(states, steps, |steps|);
    var s := states[|steps|];
    forall i | 0 <= i < |s.requests|
      ensures s.requests[i].Returned?
    {
      if !s.requests[i].Returned? {
        NobodySleepsForEver(s, i);
      }
    }
  }

  // ---------------------------------------------------------------- what is delivered

  /** Whether the request's own load, or the one whose outcome it holds, failed. */
  predicate HoldsFailure(r: Request) {
    || (r.Storing? && r.result.Unavailable?) || (r.Announcing? && r.result.Unavailable?)
    || (r.Returned? && r.context.Unavailable?)
  }

  /** Only a request whose own load failed returns an unavailable context. */
  lemma {:induction false} UnavailableMeansOwnFailure(
    states: seq<State>, steps: seq<Step>, k: nat, i: nat)
    requires Run(states, steps) && k <= |steps| && i < |states[k].requests|
    requires HoldsFailure(states[k].requests[i])
    ensures exists m :: 0 <= m < k && steps[m] == FinishLoad(i, false)
  {
    if k > 0 {
      RunInv(states, steps, k - 1);
      assert Enabled(states[k - 1], steps[k - 1]);
      if steps[k - 1] != FinishLoad(i, false) {
        UnavailableMeansOwnFailure(states, steps, k - 1, i);
      }
    }
  }

  /** After its own load succeeded, a request holds and then returns the context of its snapshot. */
  lemma {:induction false} OwnLoadIsReturned(
    states: seq<State>, steps: seq<Step>, m: nat, k: nat, i: nat)
    requires Run(states, steps) && m < k <= |steps| && steps[m] == FinishLoad(i, true)
    ensures i < |states[k].requests| == |states[k].wanted| && states[k].wanted == states[m].wanted
    ensures match states[k].requests[i]
            case Storing(_, result) => result == Loaded(states[m].wanted[i])
            case Announcing(_, result) => result == Loaded(states[m].wanted[i])
            case Returned(context) => context == Loaded(states[m].wanted[i])
            case _ => false
    decreases k
  {
    assert Enabled(states[k - 1], steps[k - 1]);
    if k > m + 1 {
      OwnLoadIsReturned(states, steps, m, k - 1, i);
    }
  }

  /** A store that replaces the ready context. */
  predicate Stores(s: State, step: Step)
    requires Enabled(s, step)
  {
    step.Store? && s.requests[step.request].result.Loaded?
  }

  /** Between two points, only the given snapshot was stored. */
  ghost predicate KeepsReady(states: seq<State>, steps: seq<Step>, m: nat, k: nat, id: SnapshotId)
    requires Run(states, steps) && k <= |steps|
  {
    forall n :: m < n < k && Stores(states[n], steps[n]) ==>
      states[n].wanted[steps[n].request] == id
  }

  /** After a successful load is stored, its context is ready until another snapshot is stored. */
  lemma {:induction false} StoredIsReady(states: seq<State>, steps: seq<Step>, m: nat, k: nat)
    requires Run(states, steps) && m < k <= |steps| && Stores(states[m], steps[m])
    requires KeepsReady(states, steps, m, k, states[m].wanted[steps[m].request])
    ensures var id := states[m].wanted[steps[m].request];
            states[k].ready == Some((id, Loaded(id)))
    decreases k
  {
    RunInv(states, steps, m);
    RunInv(states, steps, k - 1);
    assert Enabled(states[k - 1], steps[k - 1]);
    if k > m + 1 {
      StoredIsReady(states, steps, m, k - 1);
    } else {
      assert Honest(states[m], steps[m].request);
    }
    if Stores(states[k - 1], steps[k - 1]) {
      assert Honest(states[k - 1], steps[k - 1].request);
    }
  }

  /** So every request for it returns its context at the lock, and none starts a load. */
  lemma ReadyIsServed(states: seq<State>, steps: seq<Step>, m: nat, k: nat)
    requires Run(states, steps) && m < k < |steps| && Stores(states[m], steps[m]) && steps[k].Lock?
    requires KeepsReady(states, steps, m, k, states[m].wanted[steps[m].request])
    requires steps[k].request < |states[k].wanted|
    requires states[k].wanted[steps[k].request] == states[m].wanted[steps[m].request]
    ensures steps[k].request < |states[k + 1].requests|
    ensures states[k + 1].requests[steps[k].request] == Returned(Loaded(states[k].wanted[steps[k].request]))
    ensures states[k + 1].loading == states[k].loading
  {
    StoredIsReady(states, steps, m, k);
    assert Enabled(states[k], steps[k]);
  }

  /** A request returns at the lock only what is ready for its snapshot. */
  lemma LockReturnsTheReady(s: State, step: Step)
    requires Enabled(s, step) && step.Lock?
    ensures Apply(s, step).requests[step.request].Returned? <==>
              s.ready.Some? && s.ready.value.0 == s.wanted[step.request]
    ensures Apply(s, step).requests[step.request].Loading? <==>
              s.loading.None? && !(s.ready.Some? && s.ready.value.0 == s.wanted[step.request])
  {
  }
}
