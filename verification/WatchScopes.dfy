/** What is watched: new directories are walked, and a changed scope gets a worker of its own. */
module WatchScopes {
  import opened Basics
  import opened WatchPipeline
  import opened WatchLoop

  // ---------------------------------------------------------------- new directories

  /** The pipeline of the worker that will remain. */
  function Remaining(s: System): Pipeline {
    if s.replacement.Some? then s.replacement.value else s.current
  }

  /** The remaining worker walks the directories: it is built, or it refreshes. */
  predicate Walks(s: System, step: Step)
    requires Enabled(s, step)
  {
    || Respawns(s, step)
    || (step.Flow? && step.side == (if s.replacement.Some? then Replacement else Current)
        && Refreshes(Remaining(s), step.step))
  }

  /** The event reports a new directory to the remaining worker. */
  predicate CreatesDirectory(s: System, step: Step) {
    step.Occur? && var e := if s.replacement.Some? then step.replaced else step.event;
                   !e.scope.Irrelevant? && e.newDirectory
  }

  ghost predicate DirectoriesInv(s: System) {
    DirectoryInv(s.current) && (s.replacement.Some? ==> DirectoryInv(s.replacement.value))
  }

  lemma DeliverDirectory(p: Pipeline, e: Event)
    ensures DirectoryInv(p) ==> DirectoryInv(Deliver(p, e))
    ensures OwesDirectory(p) || (!e.scope.Irrelevant? && e.newDirectory) ==> OwesDirectory(Deliver(p, e))
  {
    var q := Deliver(p, e);
    if !e.scope.Irrelevant? {
      assert q.callbacks[|p.callbacks|] == Reported(e.scope, e.gitignore, e.newDirectory);
    }
    assert forall i :: 0 <= i < |p.callbacks| ==> q.callbacks[i] == p.callbacks[i];
    if i :| 0 <= i < |p.callbacks| && p.callbacks[i].Flagged? {
      assert q.callbacks[i].Flagged?;
    }
    if i :| 0 <= i < |p.callbacks| && IsNewDirectory(p.callbacks[i]) {
      assert IsNewDirectory(q.callbacks[i]);
    }
  }

  lemma StepDirectories(s: System, step: Step)
    requires Enabled(s, step) && DirectoriesInv(s)
    ensures DirectoriesInv(Apply(s, step))
    ensures (OwesDirectory(Remaining(s)) && !Walks(s, step)) || CreatesDirectory(s, step) ==>
              OwesDirectory(Remaining(Apply(s, step)))
  {
    hide PipeApply, PipeEnabled, Deliver;
    match step {
      case Occur(event, replaced) =>
        DeliverDirectory(s.current, event);
        if s.replacement.Some? {
          DeliverDirectory(s.replacement.value, replaced);
        }
      case Flow(Current, p) =>
        DirectoryStepInv(s.current, p);
        if OwesDirectory(s.current) && !Refreshes(s.current, p) { DirectoryStep(s.current, p); }
      case Flow(Replacement, p) =>
        DirectoryStepInv(s.replacement.value, p);
        if OwesDirectory(s.replacement.value) && !Refreshes(s.replacement.value, p) {
          DirectoryStep(s.replacement.value, p);
        }
      case _ => MainKeepsDirectories(s, step);
    }
  }

  lemma MainKeepsDirectories(s: System, step: Step)
    requires Enabled(s, step) && DirectoriesInv(s) && !step.Occur? && !step.Flow?
    ensures DirectoriesInv(Apply(s, step))
    ensures OwesDirectory(Remaining(s)) && !Walks(s, step) ==> OwesDirectory(Remaining(Apply(s, step)))
  {
  }

  lemma {:induction false} RunDirectories(states: seq<System>, steps: seq<Step>, k: nat)
    requires Run(states, steps) && k <= |steps|
    ensures DirectoriesInv(states[k])
  {
    if k > 0 {
      RunDirectories(states, steps, k - 1);
      hide DirectoriesInv, Enabled, Apply;
      StepDirectories(states[k - 1], steps[k - 1]);
    }
  }

  /** No new directory is lost: the remaining worker owes it until it walks the directories. */
  lemma {:induction false} NoDirectoryIsLost(states: seq<System>, steps: seq<Step>, i: nat, j: nat)
    requires Run(states, steps) && i < j <= |steps| && CreatesDirectory(states[i], steps[i])
    requires forall k :: i < k < j ==> !Walks(states[k], steps[k])
    ensures OwesDirectory(Remaining(states[j]))
    decreases j
  {
    hide Enabled, Apply, DirectoriesInv, OwesDirectory, Walks, CreatesDirectory, Remaining;
    RunDirectories(states, steps, j - 1);
    if j > i + 1 {
      NoDirectoryIsLost(states, steps, i, j - 1);
    }
    StepDirectories(states[j - 1], steps[j - 1]);
  }

  /** A quiet watcher has walked the directories after every one that was created. */
  lemma QuietHasWalked(states: seq<System>, steps: seq<Step>, i: nat, j: nat)
    requires Run(states, steps) && i < j <= |steps| && CreatesDirectory(states[i], steps[i])
    requires Quiet(states[j])
    ensures exists k :: i < k < j && Walks(states[k], steps[k])
  {
    RunInv(states, steps, j);
    RunDirectories(states, steps, j);
    QuietIsIdle(states[j]);
    assert !OwesDirectory(Remaining(states[j]));
    if forall k :: i < k < j ==> !Walks(states[k], steps[k]) {
      NoDirectoryIsLost(states, steps, i, j);
    }
  }

  // ---------------------------------------------------------------- the watched scope

  /** The scope of the last reload that succeeded, or the first one. */
  function LastReload(states: seq<System>, steps: seq<Step>, n: nat): Scope
    requires |states| > 0 && n <= |steps|
  {
    if n == 0 then states[0].scopes.loaded
    else if steps[n - 1].FinishPass? && steps[n - 1].reload.Loaded? then steps[n - 1].reload.scope
    else LastReload(states, steps, n - 1)
  }

  /** The scope the last worker that was spawned loaded for itself. */
  ghost function LastSpawned(states: seq<System>, steps: seq<Step>, n: nat): Scope
    requires Run(states, steps) && n <= |steps|
  {
    if n == 0 then states[0].scopes.watched
    else if Respawns(states[n - 1], steps[n - 1]) then steps[n - 1].reload.spawned
    else LastSpawned(states, steps, n - 1)
  }

  /** Scopes of the worker that will remain. */
  function RemainingScopes(s: System): Scopes {
    if s.replacement.Some? then s.next else s.scopes
  }

  /** The worker that will remain is the last one spawned, and the main loop's scope is the one of
      the last successful reload: a changed scope is always acted on. */
  lemma {:induction false} ScopesFollowReloads(states: seq<System>, steps: seq<Step>, k: nat)
    requires Run(states, steps) && k <= |steps|
    ensures RemainingScopes(states[k]).loaded == LastReload(states, steps, k)
    ensures RemainingScopes(states[k]).watched == LastSpawned(states, steps, k)
  {
    if k > 0 {
      ScopesFollowReloads(states, steps, k - 1);
      RunInv(states, steps, k - 1);
      hide PipeApply, PipeEnabled, Deliver, PipeInv, PassSelection;
    }
  }

  /**
   A quiet watcher watches the scope of the last successful reload, if and only if the last worker
   that was spawned loaded that scope too.
   */
  lemma QuietWatchesTheLastReload(states: seq<System>, steps: seq<Step>, k: nat)
    requires Run(states, steps) && k <= |steps| && Quiet(states[k])
    ensures states[k].replacement.None? && states[k].scopes.loaded == LastReload(states, steps, k)
    ensures states[k].scopes.watched == LastReload(states, steps, k)
            <==> LastSpawned(states, steps, k) == LastReload(states, steps, k)
  {
    RunInv(states, steps, k);
    QuietIsIdle(states[k]);
    ScopesFollowReloads(states, steps, k);
  }

  /** Where every spawned worker loads what the main loop loaded, a quiet watcher watches it. */
  lemma {:induction false} SameLoadsAreWatched(states: seq<System>, steps: seq<Step>, k: nat)
    requires Run(states, steps) && k <= |steps|
    requires states[0].scopes.loaded == states[0].scopes.watched
    requires forall m :: 0 <= m < k && Respawns(states[m], steps[m]) ==>
               steps[m].reload.spawned == steps[m].reload.scope
    ensures RemainingScopes(states[k]).watched == LastReload(states, steps, k)
  {
    ScopesFollowReloads(states, steps, k);
    if k > 0 {
      SameLoadsAreWatched(states, steps, k - 1);
      ScopesFollowReloads(states, steps, k - 1);
      RunInv(states, steps, k - 1);
      SameScopeKeepsTheWorker(states[k - 1], steps[k - 1]);
    }
  }

  /** After a pass the worker is replaced if and only if the reload succeeded and a refresh was asked
      for or the scope is another one; the pass changes nothing else about the workers. */
  lemma SameScopeKeepsTheWorker(s: System, step: Step)
    requires Inv(s) && Enabled(s, step)
    ensures Respawns(s, step) <==>
              step.FinishPass? && step.reload.Loaded?
              && (s.main.refresh || step.reload.scope != s.scopes.loaded)
    ensures step.FinishPass? && !Respawns(s, step) ==>
              Apply(s, step) == s.(main := Waiting) && s.replacement.None?
  {
  }

  /** Replacing a worker comes with a pass over the whole workspace before it takes over. */
  lemma ReplacementsCatchUp(states: seq<System>, steps: seq<Step>, i: nat, j: nat)
    requires Run(states, steps) && i < j < |steps| && Respawns(states[i], steps[i]) && steps[j].Swap?
    ensures exists m :: i < m < j && PassOf(states[m], steps[m]) == Some(None)
  {
    assert Enabled(states[j], steps[j]);
    if forall m :: i < m < j ==> !steps[m].CatchUp? {
      StaysSpawned(states, steps, i, j);
    }
  }

  lemma {:induction false} StaysSpawned(states: seq<System>, steps: seq<Step>, i: nat, j: nat)
    requires Run(states, steps) && i < j <= |steps| && Respawns(states[i], steps[i])
    requires forall m :: i < m < j ==> !steps[m].CatchUp?
    ensures states[j].main.Spawned?
    decreases j
  {
    assert Enabled(states[j - 1], steps[j - 1]);
    if j > i + 1 {
      StaysSpawned(states, steps, i, j - 1);
    }
  }
}
