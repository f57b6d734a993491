/**
 The watch loop around the event pipeline: debouncing, pass selection, and replacement of the
 event worker when the watched scope changes, with both workers observed during the catch-up.
 */
module WatchLoop {
  import opened Basics
  import opened WatchPipeline

  /** Where the main loop is. */
  datatype Main =
    | Waiting
    | Debouncing
    | TookRefresh(refresh: bool)
    | Chosen(refresh: bool, selection: Option<set<Alias>>)
    | Passing(refresh: bool)
    | Spawned
    | CatchingUp

  /** What is watched: the configuration, the database and the repositories. */
  datatype Scope = Scope(config: string, database: string, repositories: seq<string>)

  /** The scope the main loop loaded, and the one the event worker loaded for itself when spawned. */
  datatype Scopes = Scopes(loaded: Scope, watched: Scope)

  /** How reloading the watch scope after a pass turned out: the scope the main loop loaded, and the
      one a worker would load for itself if it were spawned now. */
  datatype Reload = ReloadFailed | Loaded(scope: Scope, spawned: Scope)

  datatype Side = Current | Replacement

  /** `scopes` are those of the current worker, `next` those of its replacement while there is one. */
  datatype System = System(
    current: Pipeline, replacement: Option<Pipeline>, main: Main, scopes: Scopes, next: Scopes)

  function Started(scopes: Scopes): System {
    System(IDLE, None, Waiting, scopes, scopes)
  }

  /** A filesystem event as one worker classifies it under the scope it watches. */
  datatype Event = Event(scope: EventScope, gitignore: bool, newDirectory: bool)

  /** A worker and its replacement may classify one event differently: their scopes differ. */
  datatype Step =
    | Occur(event: Event, replaced: Event)
    | Flow(side: Side, step: PipeStep)
    | Wake | WakeAgain | Settle | Choose
    | StartPass
    | FinishPass(reload: Reload)
    | CatchUp | Swap

  predicate Enabled(s: System, step: Step) {
    match step
    case Occur(_, _) => true
    case Flow(Current, p) => PipeEnabled(s.current, p)
    case Flow(Replacement, p) => s.replacement.Some? && PipeEnabled(s.replacement.value, p)
    case Wake => s.main.Waiting? && s.current.notice
    case WakeAgain => s.main.Debouncing? && s.current.notice
    case Settle => s.main.Debouncing?
    case Choose => s.main.TookRefresh?
    case StartPass => s.main.Chosen?
    case FinishPass(_) => s.main.Passing?
    case CatchUp => s.main.Spawned?
    case Swap => s.main.CatchingUp? && s.replacement.Some?
  }

  /** A worker ignores what is irrelevant to its scope. */
  function Deliver(p: Pipeline, e: Event): Pipeline {
    if e.scope.Irrelevant? then p
    else p.(callbacks := p.callbacks + [Reported(e.scope, e.gitignore, e.newDirectory)])
  }

  function Apply(s: System, step: Step): System
    requires Enabled(s, step)
  {
    match step
    case Occur(event, replaced) =>
      s.(current := Deliver(s.current, event),
         replacement := if s.replacement.None? then None
                        else Some(Deliver(s.replacement.value, replaced)))
    case Flow(Current, p) => s.(current := PipeApply(s.current, p))
    case Flow(Replacement, p) => s.(replacement := Some(PipeApply(s.replacement.value, p)))
    case Wake => s.(current := s.current.(notice := false), main := Debouncing)
    case WakeAgain => s.(current := s.current.(notice := false))
    case Settle => s.(main := TookRefresh(s.current.stateRefresh),
                      current := s.current.(stateRefresh := false))
    case Choose => s.(main := Chosen(s.main.refresh,
                                     PassSelection(s.main.refresh, Selection(s.current.state))),
                      current := s.current.(state := UNTOUCHED))
    case StartPass => s.(main := Passing(s.main.refresh))
    case FinishPass(reload) =>
      if reload.Loaded? && (s.main.refresh || reload.scope != s.scopes.loaded) then
        s.(main := Spawned, replacement := Some(IDLE), next := Scopes(reload.scope, reload.spawned))
      else s.(main := Waiting)
    case CatchUp => s.(main := CatchingUp)
    case Swap => System(s.replacement.value, None, Waiting, s.next, s.next)
  }

  /** Aliases of the pass a step starts, if it starts one. */
  function PassOf(s: System, step: Step): Option<Option<set<Alias>>>
    requires Enabled(s, step)
  {
    match step
    case StartPass => Some(s.main.selection)
    case CatchUp => Some(SelectedAliases(WATCH_OVERRIDES))
    case _ => None
  }

  predicate Respawns(s: System, step: Step)
    requires Enabled(s, step)
  {
    step.FinishPass? && Apply(s, step).main.Spawned?
  }

  /** The failed reload after a pass that was meant to refresh the scope. */
  predicate ForgetsRefresh(s: System, step: Step)
    requires Enabled(s, step)
  {
    step == FinishPass(ReloadFailed) && s.main.refresh
  }

  predicate Discharges(s: System, step: Step, item: Item)
    requires Enabled(s, step)
  {
    if item.Refresh? then Respawns(s, step)
    else PassOf(s, step).Some? && SelectionCarries(PassOf(s, step).value, item)
  }

  predicate EventCarries(e: Event, item: Item) {
    !e.scope.Irrelevant? && CallbackCarries(Reported(e.scope, e.gitignore, e.newDirectory), item)
  }

  /** Whether the replacement's word counts: from the catch-up on only it will remain, and a refresh
      seen by the worker about to go is already served. */
  predicate Succeeded(s: System, item: Item) {
    s.main.CatchingUp? || (s.main.Spawned? && item.Refresh?)
  }

  /** The event brings a change: under the watched scope, under either scope while the catch-up is
      still to come, and under the new scope from then on. */
  predicate Causes(s: System, step: Step, item: Item) {
    step.Occur? &&
    if Succeeded(s, item) then EventCarries(step.replaced, item)
    else EventCarries(step.event, item) || (s.main.Spawned? && EventCarries(step.replaced, item))
  }

  // ---------------------------------------------------------------- where a change is

  predicate MainCarries(m: Main, item: Item) {
    match m
    case TookRefresh(refresh) => item.Refresh? && refresh
    case Chosen(refresh, selection) =>
      if item.Refresh? then refresh else SelectionCarries(selection, item)
    case Passing(refresh) => item.Refresh? && refresh
    case _ => false
  }

  ghost predicate Carried(s: System, item: Item) {
    var next := s.replacement.Some? && PipeCarries(s.replacement.value, item);
    if Succeeded(s, item) then next
    else PipeCarries(s.current, item) || MainCarries(s.main, item) || (s.main.Spawned? && next)
  }

  ghost predicate Inv(s: System) {
    && PipeInv(s.current, s.main.Debouncing?, s.main.Debouncing? || s.main.TookRefresh?)
    && (s.replacement.Some? <==> s.main.Spawned? || s.main.CatchingUp?)
    && (s.replacement.Some? ==> PipeInv(s.replacement.value, false, false))
    && (s.main.Chosen? && s.main.refresh ==> s.main.selection.None?)
  }

  lemma DeliverCarries(p: Pipeline, e: Event, item: Item)
    ensures PipeCarries(p, item) ==> PipeCarries(Deliver(p, e), item)
    ensures EventCarries(e, item) ==> PipeCarries(Deliver(p, e), item)
  {
    var q := Deliver(p, e);
    if !e.scope.Irrelevant? {
      assert q.callbacks[|p.callbacks|] == Reported(e.scope, e.gitignore, e.newDirectory);
    }
    if i :| 0 <= i < |p.callbacks| && CallbackCarries(p.callbacks[i], item) {
      assert q.callbacks[i] == p.callbacks[i];
    }
  }

  lemma DeliverInv(p: Pipeline, e: Event, refresh: bool, touched: bool)
    requires PipeInv(p, refresh, touched)
    ensures PipeInv(Deliver(p, e), refresh, touched)
  {
    var q := Deliver(p, e);
    assert forall i :: 0 <= i < |p.callbacks| ==> q.callbacks[i] == p.callbacks[i];
    if i :| 0 <= i < |p.callbacks| && !p.callbacks[i].Reported? {
      assert !q.callbacks[i].Reported?;
    }
    if i :| 0 <= i < |p.callbacks| && p.callbacks[i].Flagged? {
      assert q.callbacks[i].Flagged?;
    }
  }

  lemma IdleInv()
    ensures PipeInv(IDLE, false, false)
  {
  }

  /** Changing only what the main loop owns keeps the worker's half of the invariant. */
  lemma MainTakesInv(p: Pipeline, q: Pipeline, r: bool, t: bool, r': bool, t': bool)
    requires PipeInv(p, r, t)
    requires q == p.(state := q.state, stateRefresh := q.stateRefresh, notice := q.notice)
    requires q.state != UNTOUCHED ==> q.notice || q.reader.Notifying? || t'
    requires q.stateRefresh ==> q.notice || q.reader.Notifying? || r'
    ensures PipeInv(q, r', t')
  {
  }

  lemma StepInv(s: System, step: Step)
    requires Inv(s) && Enabled(s, step)
    ensures Inv(Apply(s, step))
  {
    hide PipeApply, WakeOutstanding, FlagWakeOutstanding, PipeEnabled;
    var s' := Apply(s, step);
    var r, t := s.main.Debouncing?, s.main.Debouncing? || s.main.TookRefresh?;
    var r', t' := s'.main.Debouncing?, s'.main.Debouncing? || s'.main.TookRefresh?;
    match step {
      case Occur(event, replaced) =>
        DeliverInv(s.current, event, r, t);
        if s.replacement.Some? {
          DeliverInv(s.replacement.value, replaced, false, false);
        }
      case Flow(Current, p) => PipeStepInv(s.current, p, r, t);
      case Flow(Replacement, p) => PipeStepInv(s.replacement.value, p, false, false);
      case Swap =>
      case FinishPass(_) => IdleInv();
      case _ => MainTakesInv(s.current, s'.current, r, t, r', t');
    }
  }

  lemma MainMoves(s: System, step: Step, item: Item)
    requires Inv(s) && Enabled(s, step) && Carried(s, item)
    requires step.Wake? || step.WakeAgain? || step.Settle? || step.Choose? || step.StartPass?
             || step.FinishPass? || step.CatchUp?
    requires !Discharges(s, step, item)
    requires item.Refresh? ==> !ForgetsRefresh(s, step)
    ensures Carried(Apply(s, step), item)
  {
    var s' := Apply(s, step);
    if i :| 0 <= i < |s.current.callbacks| && CallbackCarries(s.current.callbacks[i], item) {
      assert CallbackCarries(s'.current.callbacks[i], item);
    } else if j :| 0 <= j < |s.current.pipe| && MessageCarries(s.current.pipe[j], item) {
      assert MessageCarries(s'.current.pipe[j], item);
    }
  }

  /** Every step keeps an undischarged change carried. */
  lemma StepCarries(s: System, step: Step, item: Item)
    requires Inv(s) && Enabled(s, step)
    requires Carried(s, item) && !Discharges(s, step, item)
    requires item.Refresh? ==> !ForgetsRefresh(s, step)
    ensures Carried(Apply(s, step), item)
  {
    hide PipeCarries, PipeApply, PipeInv, PipeEnabled;
    match step {
      case Occur(event, replaced) =>
        DeliverCarries(s.current, event, item);
        if s.replacement.Some? {
          DeliverCarries(s.replacement.value, replaced, item);
        }
      case Flow(Current, p) =>
        if PipeCarries(s.current, item) { PipeStepCarries(s.current, p, item); }
      case Flow(Replacement, p) =>
        if PipeCarries(s.replacement.value, item) { PipeStepCarries(s.replacement.value, p, item); }
      case Swap =>
      case _ => MainMoves(s, step, item);
    }
  }

  // ---------------------------------------------------------------- whole runs

  /** A run of the watcher, in any interleaving, until it terminates. */
  ghost predicate Run(states: seq<System>, steps: seq<Step>) {
    && |states| == |steps| + 1
    && states[0] == Started(states[0].scopes)
    && forall k :: 0 <= k < |steps| ==>
         Enabled(states[k], steps[k]) && states[k + 1] == Apply(states[k], steps[k])
  }

  lemma {:induction false} RunInv(states: seq<System>, steps: seq<Step>, k: nat)
    requires Run(states, steps) && k <= |steps|
    ensures Inv(states[k])
  {
    if k == 0 {
      IdleInv();
    } else {
      RunInv(states, steps, k - 1);
      StepInv(states[k - 1], steps[k - 1]);
    }
  }

  /** Nothing between the two steps discharged the change or forgot a scope refresh. */
  ghost predicate Outstanding(
    states: seq<System>, steps: seq<Step>, from: nat, to: nat, item: Item)
    requires Run(states, steps) && to <= |steps|
  {
    forall k :: from < k < to ==>
      && !Discharges(states[k], steps[k], item)
      && (item.Refresh? ==> !ForgetsRefresh(states[k], steps[k]))
  }

  /**
   No change is lost: in every interleaving, a reported change is carried by the pipeline or the
   main loop at every later point until a pass selects its alias or the whole workspace.
   */
  lemma {:induction false} NoChangeIsLost(
    states: seq<System>, steps: seq<Step>, i: nat, j: nat, item: Item)
    requires Run(states, steps) && i < j <= |steps| && Causes(states[i], steps[i], item)
    requires Outstanding(states, steps, i, j, item)
    ensures Carried(states[j], item)
    decreases j
  {
    hide Carried, Apply, Enabled, Inv, Discharges, ForgetsRefresh, Causes;
    if j == i + 1 {
      RunInv(states, steps, i);
      OccurCarries(states[i], steps[i], item);
    } else {
      NoChangeIsLost(states, steps, i, j - 1, item);
      RunInv(states, steps, j - 1);
      StepCarries(states[j - 1], steps[j - 1], item);
    }
  }

  lemma OccurCarries(s: System, step: Step, item: Item)
    requires Inv(s) && Enabled(s, step) && Causes(s, step, item)
    ensures Carried(Apply(s, step), item)
  {
    hide PipeCarries, PipeInv, CallbackCarries;
    DeliverCarries(s.current, step.event, item);
    if s.replacement.Some? {
      DeliverCarries(s.replacement.value, step.replaced, item);
    }
  }

  /** Only a new filesystem event can move the watcher. */
  ghost predicate Quiet(s: System) {
    forall step :: Enabled(s, step) ==> step.Occur?
  }

  lemma QuietIsIdle(s: System)
    requires Inv(s) && Quiet(s)
    ensures s.main.Waiting? && s.current.callbacks == [] && s.current.pipe == []
    ensures s.current.worker.Listening? && s.current.reader.Reading?
    ensures s.current.wake.None? && !s.current.notice
  {
    assert !Enabled(s, Settle) && !Enabled(s, Choose) && !Enabled(s, StartPass);
    assert !Enabled(s, FinishPass(ReloadFailed)) && !Enabled(s, CatchUp) && !Enabled(s, Swap);
    assert !Enabled(s, Wake);
    QuietPipeIsIdle(s);
  }

  lemma QuietPipeIsIdle(s: System)
    requires Quiet(s)
    ensures s.current.callbacks == [] && s.current.pipe == []
    ensures s.current.worker.Listening? && s.current.reader.Reading? && s.current.wake.None?
  {
    assert !Enabled(s, Flow(Current, TakeScope)) && !Enabled(s, Flow(Current, TakeTouched));
    assert !Enabled(s, Flow(Current, Emit(true))) && !Enabled(s, Flow(Current, Reinstall));
    assert !Enabled(s, Flow(Current, Receive)) && !Enabled(s, Flow(Current, Notify));
    assert !Enabled(s, Flow(Current, ReadMessage));
    assert !Enabled(s, Flow(Current, RecordChange(0))) && !Enabled(s, Flow(Current, SetFlags(0)));
    assert !Enabled(s, Flow(Current, TrySend(0)));
  }

  /** A quiet watcher owes nothing: a carried change always has a wake-up on its way. */
  lemma QuietCarriesNothing(s: System, item: Item)
    requires Inv(s) && Quiet(s)
    ensures !Carried(s, item)
  {
    QuietIsIdle(s);
    assert s.current.pending == UNTOUCHED && s.current.state == UNTOUCHED;
  }

  /** Once the watcher is quiet, every earlier change was covered by a pass that started after it;
      a scope refresh was served by a respawn unless a reload failed. */
  lemma QuietMeansCaughtUp(states: seq<System>, steps: seq<Step>, i: nat, j: nat, item: Item)
    requires Run(states, steps) && i < j <= |steps| && Causes(states[i], steps[i], item)
    requires Quiet(states[j])
    ensures exists k :: i < k < j &&
              (Discharges(states[k], steps[k], item)
               || (item.Refresh? && ForgetsRefresh(states[k], steps[k])))
  {
    RunInv(states, steps, j);
    QuietCarriesNothing(states[j], item);
    if Outstanding(states, steps, i, j, item) {
      NoChangeIsLost(states, steps, i, j, item);
    }
  }

  // ---------------------------------------------------------------- it settles

  function CallbackRank(c: Callback): nat {
    match c case Reported(_, _, _) => 18 case Pending(_, _) => 17 case Flagged(_) => 16
  }

  function CallbacksRank(cs: seq<Callback>): nat {
    if cs == [] then 0 else CallbackRank(cs[0]) + CallbacksRank(cs[1..])
  }

  function WorkerRank(w: Worker): nat {
    match w
    case Listening => 0
    case Woken(_) => 14
    case TookScope(_, _) => 13
    case Emitting(_, _, _) => 12
    case Reinstalling(_) => 2
  }

  function MessagesRank(ms: seq<Message>): nat {
    if ms == [] then 0 else (if ms[0].Dirty? then 9 else 1) + MessagesRank(ms[1..])
  }

  function PipeRank(p: Pipeline): nat {
    CallbacksRank(p.callbacks) + (if p.wake.Some? then 15 else 0) + WorkerRank(p.worker)
    + MessagesRank(p.pipe) + (if p.reader.Notifying? then 8 else 0) + (if p.notice then 7 else 0)
  }

  function MainRank(m: Main): nat {
    match m
    case Waiting => 0
    case Debouncing => 6
    case TookRefresh(_) => 5
    case Chosen(_, _) => 4
    case Passing(_) => 3
    case Spawned => 2
    case CatchingUp => 1
  }

  function Rank(s: System): nat {
    PipeRank(s.current) + MainRank(s.main)
    + (if s.replacement.Some? then PipeRank(s.replacement.value) else 0)
  }

  lemma {:induction false} CallbacksRankUpdate(cs: seq<Callback>, i: nat, c: Callback)
    requires i < |cs|
    ensures CallbacksRank(cs[i := c]) == CallbacksRank(cs) - CallbackRank(cs[i]) + CallbackRank(c)
    ensures CallbacksRank(Without(cs, i)) == CallbacksRank(cs) - CallbackRank(cs[i])
  {
    if i > 0 {
      CallbacksRankUpdate(cs[1..], i - 1, c);
      assert cs[i := c][1..] == cs[1..][i - 1 := c];
      assert Without(cs, i) == [cs[0]] + Without(cs[1..], i - 1);
      assert Without(cs, i)[1..] == Without(cs[1..], i - 1);
    } else {
      assert cs[0 := c][1..] == cs[1..];
      assert Without(cs, 0) == cs[1..];
    }
  }

  lemma {:induction false} MessagesRankAppend(ms: seq<Message>, m: Message)
    ensures MessagesRank(ms + [m]) == MessagesRank(ms) + (if m.Dirty? then 9 else 1)
  {
    if ms == [] {
      assert [m][1..] == [];
    } else {
      MessagesRankAppend(ms[1..], m);
      assert (ms + [m])[1..] == ms[1..] + [m];
    }
  }

  lemma PipeStepRank(p: Pipeline, step: PipeStep)
    requires PipeEnabled(p, step)
    ensures PipeRank(PipeApply(p, step)) < PipeRank(p)
  {
    hide CallbacksRank, MessagesRank;
    match step {
      case RecordChange(i) =>
        CallbacksRankUpdate(p.callbacks, i, PipeApply(p, step).callbacks[i]);
      case SetFlags(i) =>
        CallbacksRankUpdate(p.callbacks, i, PipeApply(p, step).callbacks[i]);
      case TrySend(i) => CallbacksRankUpdate(p.callbacks, i, p.callbacks[i]);
      case Emit(fits) =>
        MessagesRankAppend(p.pipe, PipeApply(p, step).pipe[|p.pipe|]);
      case Reinstall => MessagesRankAppend(p.pipe, Ready);
      case ReadMessage => ReadRank(p.pipe);
      case _ =>
    }
  }

  lemma ReadRank(ms: seq<Message>)
    requires ms != []
    ensures MessagesRank(ms) == (if ms[0].Dirty? then 9 else 1) + MessagesRank(ms[1..])
  {
  }

  /** Every step except a new event brings the watcher closer to being quiet. */
  lemma StepRank(s: System, step: Step)
    requires Inv(s) && Enabled(s, step) && !step.Occur?
    ensures Rank(Apply(s, step)) < Rank(s)
  {
    hide CallbacksRank, MessagesRank, PipeApply, PipeInv;
    match step {
      case Flow(Current, p) => PipeStepRank(s.current, p);
      case Flow(Replacement, p) => PipeStepRank(s.replacement.value, p);
      case FinishPass(_) => IdleRank();
      case _ =>
    }
  }

  lemma IdleRank()
    ensures PipeRank(IDLE) == 0
  {
  }

  /** After the last event the watcher takes boundedly many steps, so it becomes quiet and, by
      `QuietMeansCaughtUp`, has covered everything. */
  lemma {:induction false} SettlesAfterTheLastEvent(
    states: seq<System>, steps: seq<Step>, last: nat, k: nat)
    requires Run(states, steps) && last <= k <= |steps|
    requires forall m :: last <= m < |steps| ==> !steps[m].Occur?
    ensures k - last + Rank(states[k]) <= Rank(states[last])
    decreases k
  {
    hide Rank, Apply, Enabled, Inv;
    if k > last {
      SettlesAfterTheLastEvent(states, steps, last, k - 1);
      RunInv(states, steps, k - 1);
      StepRank(states[k - 1], steps[k - 1]);
    }
  }
}
