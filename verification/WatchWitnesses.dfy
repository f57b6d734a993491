/**
 Concrete runs of the watcher: a forgotten scope refresh, a replacement that watches its own load, and
 a wake-up widened to the workspace.
 */
module WatchWitnesses {
  import opened Basics
  import opened WatchPipeline
  import opened WatchLoop

  // ---------------------------------------------------------------- the forgotten refresh

  // One `.gitignore` edit whose scope reload fails, state by state.
  const IGNORE_EDIT := Event(Repositories({"a"}), true, false)
  const EDIT := Occur(IGNORE_EDIT, IGNORE_EDIT)
  const EDITED := Touched({"a"}, false)
  const P1 := IDLE.(callbacks := [Reported(Repositories({"a"}), true, false)])
  const P2 := IDLE.(callbacks := [Pending(true, false)], pending := EDITED)
  const P3 := P2.(callbacks := [Flagged(false)], pendingRefresh := true)
  const P4 := P3.(callbacks := [], wake := Some(DirtySignal))
  const P5 := P4.(wake := None, worker := Woken(DirtySignal))
  const P6 := P5.(worker := TookScope(DirtySignal, true), pendingRefresh := false)
  const P7 := IDLE.(worker := Emitting(DirtySignal, true, {"a"}))
  const P8 := IDLE.(worker := Reinstalling(DirtySignal), pipe := [Dirty(true, {"a"})])
  const P9 := IDLE.(pipe := [Dirty(true, {"a"}), Ready])
  const P10 := IDLE.(pipe := [Ready], reader := Notifying, state := EDITED, stateRefresh := true)
  const P11 := P10.(reader := Reading, notice := true)
  const P12 := P11.(pipe := [])
  const P13 := P12.(notice := false)

  /** The steps lead from one state to the other without respawning the event worker. */
  ghost predicate Leads(s: System, steps: seq<Step>, s': System)
    decreases |steps|
  {
    if steps == [] then s == s'
    else Enabled(s, steps[0]) && !Respawns(s, steps[0]) && Leads(Apply(s, steps[0]), steps[1..], s')
  }

  lemma Move(s: System, step: Step, s': System)
    requires Enabled(s, step) && !Respawns(s, step) && Apply(s, step) == s'
    ensures Leads(s, [step], s')
  {
    assert [step][1..] == [];
  }

  lemma {:induction false} LeadsOn(s: System, a: seq<Step>, m: System, b: seq<Step>, s': System)
    requires Leads(s, a, m) && Leads(m, b, s')
    ensures Leads(s, a + b, s')
    decreases |a|
  {
    hide Enabled, Apply, Respawns;
    if a == [] {
      assert a + b == b;
    } else {
      LeadsOn(Apply(s, a[0]), a[1..], m, b, s');
      assert (a + b)[1..] == a[1..] + b;
    }
  }

  ghost predicate Follows(s: System, s': System) {
    exists steps: seq<Step> :: Leads(s, steps, s')
  }

  lemma Chain(s: System, m: System, s': System)
    requires Follows(s, m) && Follows(m, s')
    ensures Follows(s, s')
  {
    var a :| Leads(s, a, m);
    var b :| Leads(m, b, s');
    LeadsOn(s, a, m, b, s');
  }

  lemma FollowsMove(s: System, step: Step, s': System)
    requires Enabled(s, step) && !Respawns(s, step) && Apply(s, step) == s'
    ensures Follows(s, s')
  {
    Move(s, step, s');
  }

  const HOME := Scopes(Scope("c", "d", ["a"]), Scope("c", "d", ["a"]))
  const START := Started(HOME)

  function During(p: Pipeline, m: Main): System { System(p, None, m, HOME, HOME) }

  function At(p: Pipeline): System { During(p, Waiting) }

  lemma EditIsReported()
    ensures Follows(At(P1), At(P4))
  {
    assert Without(P3.callbacks, 0) == [];
    FollowsMove(At(P1), Flow(Current, RecordChange(0)), At(P2));
    FollowsMove(At(P2), Flow(Current, SetFlags(0)), At(P3));
    FollowsMove(At(P3), Flow(Current, TrySend(0)), At(P4));
    Chain(At(P1), At(P2), At(P3));
    Chain(At(P1), At(P3), At(P4));
  }

  lemma EditIsTaken()
    ensures Follows(At(P4), At(P7))
  {
    FollowsMove(At(P4), Flow(Current, Receive), At(P5));
    FollowsMove(At(P5), Flow(Current, TakeScope), At(P6));
    FollowsMove(At(P6), Flow(Current, TakeTouched), At(P7));
    Chain(At(P4), At(P5), At(P6));
    Chain(At(P4), At(P6), At(P7));
  }

  lemma EditIsEmitted()
    ensures Follows(At(P7), At(P9))
  {
    assert P7.pipe + [Dirty(true, {"a"})] == P8.pipe;
    assert P8.pipe + [Ready] == P9.pipe;
    FollowsMove(At(P7), Flow(Current, Emit(true)), At(P8));
    FollowsMove(At(P8), Flow(Current, Reinstall), At(P9));
    Chain(At(P7), At(P8), At(P9));
  }

  lemma EditIsRead()
    ensures Follows(At(P9), At(P12))
  {
    assert P9.pipe[1..] == P10.pipe && P11.pipe[1..] == P12.pipe;
    assert {} + {"a"} == {"a"};
    FollowsMove(At(P9), Flow(Current, ReadMessage), At(P10));
    FollowsMove(At(P10), Flow(Current, Notify), At(P11));
    FollowsMove(At(P11), Flow(Current, ReadMessage), At(P12));
    Chain(At(P9), At(P10), At(P11));
    Chain(At(P9), At(P11), At(P12));
  }

  const PASSING := During(IDLE, Passing(true))

  lemma EditIsPassed()
    ensures Follows(At(P12), PASSING)
  {
    var settling := During(P13, Debouncing);
    var settled := During(P13.(stateRefresh := false), TookRefresh(true));
    var chosen := During(IDLE, Chosen(true, None));
    FollowsMove(At(P12), Wake, settling);
    FollowsMove(settling, Settle, settled);
    FollowsMove(settled, Choose, chosen);
    FollowsMove(chosen, StartPass, PASSING);
    Chain(At(P12), settling, settled);
    Chain(At(P12), settled, chosen);
    Chain(At(P12), chosen, PASSING);
  }

  /** The edit reaches a pass that took its refresh request, with nothing else pending. */
  lemma EditComesToAPass()
    ensures Enabled(START, EDIT) && Causes(START, EDIT, Refresh) && Follows(Apply(START, EDIT), PASSING)
  {
    assert [] + [Reported(Repositories({"a"}), true, false)] == P1.callbacks;
    assert Apply(START, EDIT) == At(P1);
    hide P1, P2, P3, P4, P5, P6, P7, P8, P9, P10, P11, P12, P13, IDLE, Leads;
    EditIsReported();
    EditIsTaken();
    EditIsEmitted();
    EditIsRead();
    EditIsPassed();
    Chain(At(P1), At(P4), At(P7));
    Chain(At(P1), At(P7), At(P9));
    Chain(At(P1), At(P9), At(P12));
    Chain(At(P1), At(P12), PASSING);
  }

  /**
   A scope refresh is not always served: when reloading the scope fails after the pass that took
   the request, the watcher is back in its starting state with the request gone and no worker
   respawned. `QuietMeansCaughtUp` says this is the only way to lose one.
   */
  lemma FailedReloadForgetsRefresh()
    ensures Enabled(START, EDIT) && Causes(START, EDIT, Refresh) && Follows(Apply(START, EDIT), START)
  {
    EditComesToAPass();
    FollowsMove(PASSING, FinishPass(ReloadFailed), START);
    Chain(Apply(START, EDIT), PASSING, START);
  }

  // ---------------------------------------------------------------- the worker's own load

  /**
   A quiet watcher need not watch what its main loop loaded: the replacement loads the scope for
   itself, and takes over with whatever it found. Here the main loop loads the scope it had.
   */
  lemma ReplacementWatchesItsOwnLoad(spawned: Scope)
    ensures Enabled(START, EDIT) && Follows(Apply(START, EDIT), PASSING)
    ensures var reload := FinishPass(Loaded(HOME.loaded, spawned));
            && Enabled(PASSING, reload) && Respawns(PASSING, reload)
            && Follows(Apply(PASSING, reload), Started(Scopes(HOME.loaded, spawned)))
    ensures Quiet(Started(Scopes(HOME.loaded, spawned)))
  {
    EditComesToAPass();
    var s := Apply(PASSING, FinishPass(Loaded(HOME.loaded, spawned)));
    var catching, swapped := s.(main := CatchingUp), Started(Scopes(HOME.loaded, spawned));
    FollowsMove(s, CatchUp, catching);
    FollowsMove(catching, Swap, swapped);
    Chain(s, catching, swapped);
  }

  // ---------------------------------------------------------------- the widened wake-up

  // Two changes of one repository, the second recorded while the worker serves the first.
  const TOUCH := Event(Repositories({"a"}), false, false)
  const R := Reported(Repositories({"a"}), false, false)
  const F := Flagged(false)
  const Q1 := IDLE.(callbacks := [Pending(false, false), R], pending := EDITED)
  const Q2 := Q1.(callbacks := [F, R])
  const Q3 := Q2.(callbacks := [R], wake := Some(DirtySignal))
  const Q4 := Q3.(wake := None, worker := Woken(DirtySignal))
  const Q5 := Q4.(worker := TookScope(DirtySignal, false))
  const Q6 := Q5.(callbacks := [Pending(false, false)])
  const Q7 := Q5.(callbacks := [F])
  const Q8 := Q5.(callbacks := [], wake := Some(DirtySignal))
  const Q9 := IDLE.(wake := Some(DirtySignal), worker := Emitting(DirtySignal, false, {"a"}))
  const Q10 := Q9.(worker := Reinstalling(DirtySignal), pipe := [Dirty(false, {"a"})])
  const Q11 := Q9.(worker := Listening, pipe := [Dirty(false, {"a"}), Ready])
  const Q12 := Q11.(wake := None, worker := Woken(DirtySignal))
  const Q13 := Q12.(worker := TookScope(DirtySignal, false))
  const Q14 := Q12.(worker := Emitting(DirtySignal, false, {}))

  lemma FirstTouchIsRecorded()
    ensures Follows(At(IDLE.(callbacks := [R, R])), At(Q3))
  {
    var q0 := IDLE.(callbacks := [R, R]);
    assert [R, R][0 := Pending(false, false)] == Q1.callbacks && Q1.callbacks[0 := F] == Q2.callbacks;
    assert {} + {"a"} == {"a"};
    assert Without(Q2.callbacks, 0) == [R];
    FollowsMove(At(q0), Flow(Current, RecordChange(0)), At(Q1));
    FollowsMove(At(Q1), Flow(Current, SetFlags(0)), At(Q2));
    FollowsMove(At(Q2), Flow(Current, TrySend(0)), At(Q3));
    Chain(At(q0), At(Q1), At(Q2));
    Chain(At(q0), At(Q2), At(Q3));
  }

  lemma FirstTouchWakes()
    ensures Follows(At(Q3), At(Q5))
  {
    FollowsMove(At(Q3), Flow(Current, Receive), At(Q4));
    FollowsMove(At(Q4), Flow(Current, TakeScope), At(Q5));
    Chain(At(Q3), At(Q4), At(Q5));
  }

  lemma SecondTouchIsTakenAlong()
    ensures Follows(At(Q5), At(Q9))
  {
    assert Q5.callbacks[0 := Pending(false, false)] == Q6.callbacks && Q6.callbacks[0 := F] == Q7.callbacks;
    assert {"a"} + {"a"} == {"a"};
    assert Without(Q7.callbacks, 0) == [];
    FollowsMove(At(Q5), Flow(Current, RecordChange(0)), At(Q6));
    FollowsMove(At(Q6), Flow(Current, SetFlags(0)), At(Q7));
    FollowsMove(At(Q7), Flow(Current, TrySend(0)), At(Q8));
    FollowsMove(At(Q8), Flow(Current, TakeTouched), At(Q9));
    Chain(At(Q5), At(Q6), At(Q7));
    Chain(At(Q5), At(Q7), At(Q8));
    Chain(At(Q5), At(Q8), At(Q9));
  }

  lemma BothTouchesAreSent()
    ensures Follows(At(Q9), At(Q11))
  {
    assert Q9.pipe + [Dirty(false, {"a"})] == Q10.pipe && Q10.pipe + [Ready] == Q11.pipe;
    FollowsMove(At(Q9), Flow(Current, Emit(true)), At(Q10));
    FollowsMove(At(Q10), Flow(Current, Reinstall), At(Q11));
    Chain(At(Q9), At(Q10), At(Q11));
  }

  lemma LateWakeTakesNothing()
    ensures Follows(At(Q11), At(Q14))
  {
    FollowsMove(At(Q11), Flow(Current, Receive), At(Q12));
    FollowsMove(At(Q12), Flow(Current, TakeScope), At(Q13));
    FollowsMove(At(Q13), Flow(Current, TakeTouched), At(Q14));
    Chain(At(Q11), At(Q12), At(Q13));
    Chain(At(Q11), At(Q13), At(Q14));
  }

  /**
   A wake-up that finds nothing left to take is sent on as a change of the whole workspace. Two
   changes of one repository are enough, when the worker takes both for the first wake-up.
   */
  lemma LateWakeWidens()
    ensures var twice := Apply(Apply(START, Occur(TOUCH, TOUCH)), Occur(TOUCH, TOUCH));
            exists s: System :: Follows(twice, s) && NamesAll(s.current)
  {
    assert [] + [R] == [R] && [R] + [R] == [R, R];
    assert Apply(Apply(START, Occur(TOUCH, TOUCH)), Occur(TOUCH, TOUCH)) == At(IDLE.(callbacks := [R, R]));
    assert NamesAll(Q14);
    var twice := At(IDLE.(callbacks := [R, R]));
    FirstTouchIsRecorded();
    FirstTouchWakes();
    SecondTouchIsTakenAlong();
    BothTouchesAreSent();
    LateWakeTakesNothing();
    hide Follows;
    Chain(twice, At(Q3), At(Q5));
    Chain(twice, At(Q5), At(Q9));
    Chain(twice, At(Q9), At(Q11));
    Chain(twice, At(Q11), At(Q14));
  }
}
