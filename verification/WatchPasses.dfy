/** Passes are no wider than what happened: where targets, refreshes and whole passes come from. */
module WatchPasses {
  import opened Basics
  import opened WatchPipeline
  import opened WatchLoop

  /** An event names the repository, on either side. */
  predicate TellsAlias(step: Step, alias: Alias) {
    step.Occur? &&
    ((step.event.scope.Repositories? && alias in step.event.scope.aliases)
     || (step.replaced.scope.Repositories? && alias in step.replaced.scope.aliases))
  }

  predicate TellsAll(step: Step) {
    step.Occur? && (step.event.scope.Workspace? || step.replaced.scope.Workspace?)
  }

  predicate TellsRefresh(step: Step) {
    step.Occur? && ((!step.event.scope.Irrelevant? && step.event.gitignore)
                    || (!step.replaced.scope.Irrelevant? && step.replaced.gitignore))
  }

  /** A step that widens to the workspace: in a pipeline, or a wake-up of the main loop whose changes
      an earlier pass took along. */
  predicate WidensPass(s: System, step: Step)
    requires Enabled(s, step)
  {
    match step
    case Flow(Current, p) => Widens(s.current, p)
    case Flow(Replacement, p) => Widens(s.replacement.value, p)
    case Choose => s.current.state == UNTOUCHED
    case _ => false
  }

  ghost predicate NamesInSystem(s: System, alias: Alias) {
    || Names(s.current, alias) || (s.replacement.Some? && Names(s.replacement.value, alias))
    || (s.main.Chosen? && s.main.selection.Some? && alias in s.main.selection.value)
  }

  ghost predicate RefreshInSystem(s: System) {
    || AsksRefresh(s.current) || (s.replacement.Some? && AsksRefresh(s.replacement.value))
    || ((s.main.TookRefresh? || s.main.Chosen? || s.main.Passing?) && s.main.refresh)
  }

  ghost predicate AllInSystem(s: System) {
    || NamesAll(s.current) || (s.replacement.Some? && NamesAll(s.replacement.value))
    || (s.main.Chosen? && s.main.selection.None? && !s.main.refresh)
  }

  lemma DeliverNames(p: Pipeline, e: Event, alias: Alias)
    ensures Names(Deliver(p, e), alias) ==>
              Names(p, alias) || (e.scope.Repositories? && alias in e.scope.aliases)
    ensures NamesAll(Deliver(p, e)) ==> NamesAll(p) || e.scope.Workspace?
    ensures AsksRefresh(Deliver(p, e)) ==> AsksRefresh(p) || (!e.scope.Irrelevant? && e.gitignore)
  {
    var q := Deliver(p, e);
    assert forall i :: 0 <= i < |p.callbacks| ==> q.callbacks[i] == p.callbacks[i];
  }

  lemma IdleNamesNothing(alias: Alias)
    ensures !Names(IDLE, alias) && !NamesAll(IDLE) && !AsksRefresh(IDLE)
  {
  }

  lemma StepNames(s: System, step: Step, alias: Alias)
    requires Enabled(s, step) && NamesInSystem(Apply(s, step), alias)
    ensures NamesInSystem(s, alias) || TellsAlias(step, alias)
  {
    hide PipeApply, PipeEnabled, Deliver;
    match step {
      case Occur(event, replaced) =>
        DeliverNames(s.current, event, alias);
        if s.replacement.Some? { DeliverNames(s.replacement.value, replaced, alias); }
      case Flow(Current, p) =>
        if Names(PipeApply(s.current, p), alias) { NamesStep(s.current, p, alias); }
      case Flow(Replacement, p) =>
        if Names(PipeApply(s.replacement.value, p), alias) { NamesStep(s.replacement.value, p, alias); }
      case FinishPass(_) => IdleNamesNothing(alias);
      case _ =>
    }
  }

  lemma StepAsksRefresh(s: System, step: Step)
    requires Enabled(s, step) && RefreshInSystem(Apply(s, step))
    ensures RefreshInSystem(s) || TellsRefresh(step)
  {
    hide PipeApply, PipeEnabled, Deliver;
    match step {
      case Occur(event, replaced) =>
        DeliverNames(s.current, event, "");
        if s.replacement.Some? { DeliverNames(s.replacement.value, replaced, ""); }
      case Flow(Current, p) =>
        if AsksRefresh(PipeApply(s.current, p)) { AsksRefreshStep(s.current, p); }
      case Flow(Replacement, p) =>
        if AsksRefresh(PipeApply(s.replacement.value, p)) { AsksRefreshStep(s.replacement.value, p); }
      case FinishPass(_) => IdleNamesNothing("");
      case _ =>
    }
  }

  lemma StepNamesAll(s: System, step: Step)
    requires Enabled(s, step) && AllInSystem(Apply(s, step))
    ensures AllInSystem(s) || TellsAll(step) || WidensPass(s, step)
  {
    hide PipeApply, PipeEnabled, Deliver, Widens;
    match step {
      case Occur(event, replaced) =>
        DeliverNames(s.current, event, "");
        if s.replacement.Some? { DeliverNames(s.replacement.value, replaced, ""); }
      case Flow(Current, p) =>
        if NamesAll(PipeApply(s.current, p)) && !Widens(s.current, p) { NamesAllStep(s.current, p); }
      case Flow(Replacement, p) =>
        if NamesAll(PipeApply(s.replacement.value, p)) && !Widens(s.replacement.value, p) {
          NamesAllStep(s.replacement.value, p);
        }
      case FinishPass(_) => IdleNamesNothing("");
      case _ =>
    }
  }

  lemma {:induction false} NamedWasTold(states: seq<System>, steps: seq<Step>, k: nat, alias: Alias)
    requires Run(states, steps) && k <= |steps| && NamesInSystem(states[k], alias)
    ensures exists m :: 0 <= m < k && TellsAlias(steps[m], alias)
  {
    hide NamesInSystem, Apply, Enabled;
    if k == 0 {
      StartNamesNothing(states[0], alias);
    } else {
      StepNames(states[k - 1], steps[k - 1], alias);
      if !TellsAlias(steps[k - 1], alias) { NamedWasTold(states, steps, k - 1, alias); }
    }
  }

  lemma {:induction false} RefreshWasTold(states: seq<System>, steps: seq<Step>, k: nat)
    requires Run(states, steps) && k <= |steps| && RefreshInSystem(states[k])
    ensures exists m :: 0 <= m < k && TellsRefresh(steps[m])
  {
    hide RefreshInSystem, Apply, Enabled;
    if k == 0 {
      StartNamesNothing(states[0], "");
    } else {
      StepAsksRefresh(states[k - 1], steps[k - 1]);
      if !TellsRefresh(steps[k - 1]) { RefreshWasTold(states, steps, k - 1); }
    }
  }

  lemma {:induction false} AllWasTold(states: seq<System>, steps: seq<Step>, k: nat)
    requires Run(states, steps) && k <= |steps| && AllInSystem(states[k])
    ensures exists m :: 0 <= m < k && (TellsAll(steps[m]) || WidensPass(states[m], steps[m]))
  {
    hide AllInSystem, Apply, Enabled, WidensPass;
    if k == 0 {
      StartNamesNothing(states[0], "");
    } else {
      StepNamesAll(states[k - 1], steps[k - 1]);
      if !TellsAll(steps[k - 1]) && !WidensPass(states[k - 1], steps[k - 1]) {
        AllWasTold(states, steps, k - 1);
      }
    }
  }

  lemma StartNamesNothing(s: System, alias: Alias)
    requires s == Started(s.scopes)
    ensures !NamesInSystem(s, alias) && !RefreshInSystem(s) && !AllInSystem(s)
  {
    IdleNamesNothing(alias);
  }

  /**
   Passes are no wider than what happened. A targeted pass names only repositories that some event
   named; an untargeted one follows an event of the whole workspace, a `.gitignore` change, a message
   over the protocol bound, or a wake-up whose changes an earlier one took along.
   */
  lemma PassesAreTold(states: seq<System>, steps: seq<Step>, k: nat)
    requires Run(states, steps) && k < |steps| && steps[k].StartPass?
    ensures var selection := states[k].main.selection;
            && (selection.Some? ==>
                  selection.value != {}
                  && forall alias <- selection.value :: exists m :: 0 <= m < k && TellsAlias(steps[m], alias))
            && (selection.None? ==>
                  exists m :: 0 <= m < k
                    && (TellsAll(steps[m]) || TellsRefresh(steps[m]) || WidensPass(states[m], steps[m])))
  {
    assert Enabled(states[k], steps[k]);
    ChosenIsNotEmpty(states, steps, k);
    var main := states[k].main;
    if main.selection.Some? {
      forall alias | alias in main.selection.value
        ensures exists m :: 0 <= m < k && TellsAlias(steps[m], alias)
      {
        NamedWasTold(states, steps, k, alias);
      }
    } else if main.refresh {
      RefreshWasTold(states, steps, k);
    } else {
      AllWasTold(states, steps, k);
    }
  }

  lemma {:induction false} ChosenIsNotEmpty(states: seq<System>, steps: seq<Step>, k: nat)
    requires Run(states, steps) && k <= |steps|
    ensures states[k].main.Chosen? && states[k].main.selection.Some? ==>
              states[k].main.selection.value != {}
  {
    if k > 0 {
      ChosenIsNotEmpty(states, steps, k - 1);
      hide PipeApply, PipeEnabled, Deliver;
    }
  }
}
