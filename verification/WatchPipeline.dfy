/**
 The watch pipeline as interleaved atomic steps: filesystem callbacks, the event worker, the
 protocol reader and the main loop, joined by a pending set, two capacity-1 channels and a pipe.
 A change is coalesced and widened on the way to a pass; the results say it is never lost.
 */
module WatchPipeline {
  import opened Basics

  type Alias = string

  // ---------------------------------------------------------------- touched repositories

  datatype EventScope = Irrelevant | Repositories(aliases: set<Alias>) | Workspace

  datatype Touched = Touched(aliases: set<Alias>, workspace: bool)

  const UNTOUCHED := Touched({}, false)

  function Recorded(t: Touched, scope: EventScope): Touched {
    match scope
    case Irrelevant => t
    case Repositories(aliases) => t.(aliases := t.aliases + aliases)
    case Workspace => t.(workspace := true)
  }

  /** `None` when the next pass must cover the workspace, also for an empty set. */
  function Selection(t: Touched): Option<set<Alias>> {
    if !t.workspace && t.aliases != {} then Some(t.aliases) else None
  }

  /** The mutex-guarded set behind `PendingChanges` and `WatchEventState`. */
  class TouchedRepositories {
    var aliases: set<Alias>
    var workspace: bool

    constructor ()
      ensures View() == UNTOUCHED
    {
      aliases, workspace := {}, false;
    }

    ghost function View(): Touched
      reads this
    {
      Touched(aliases, workspace)
    }

    method Record(scope: EventScope)
      modifies this
      ensures View() == Recorded(old(View()), scope)
    {
      match scope {
        case Irrelevant =>
        case Repositories(touched) => aliases := aliases + touched;
        case Workspace => workspace := true;
      }
    }

    method Take() returns (selection: Option<set<Alias>>)
      modifies this
      ensures View() == UNTOUCHED
      ensures selection == Selection(old(View()))
    {
      var touched, all := aliases, workspace;
      aliases, workspace := {}, false;
      selection := if !all && touched != {} then Some(touched) else None;
    }
  }

  // ---------------------------------------------------------------- pass selection

  datatype Overrides = Overrides(repository: Option<Alias>, touched: set<Alias>)

  /** `targeted_pass_overrides`. */
  function TargetedPass(o: Overrides, refresh: bool, touched: Option<set<Alias>>): Overrides {
    if !refresh && o.repository.None? then
      o.(touched := if touched.Some? then touched.value else {})
    else o
  }

  /** `ScanOverrides::selected_aliases`; `None` selects every repository. */
  function SelectedAliases(o: Overrides): Option<set<Alias>> {
    if o.repository.Some? then Some({o.repository.value})
    else if o.touched != {} then Some(o.touched)
    else None
  }

  /** What a watcher started without `--repo` passes to every pass. */
  const WATCH_OVERRIDES := Overrides(None, {})

  function PassSelection(refresh: bool, touched: Option<set<Alias>>): Option<set<Alias>> {
    SelectedAliases(TargetedPass(WATCH_OVERRIDES, refresh, touched))
  }

  /** A targeted pass covers an alias that the touched set covers if and only if no `--repo`
      narrows it away. */
  lemma TargetedPassCovers(o: Overrides, refresh: bool, t: Touched, alias: Alias)
    requires o.touched == {} && (t.workspace || alias in t.aliases)
    ensures var selected := SelectedAliases(TargetedPass(o, refresh, Selection(t)));
            (selected.None? || alias in selected.value)
            <==> (o.repository.None? || o.repository.value == alias)
  {
  }

  // ---------------------------------------------------------------- one event pipeline

  /** A change owed to the index: one repository, the whole workspace, or a scope refresh. */
  datatype Item = Repo(alias: Alias) | All | Refresh

  datatype Signal = DirtySignal | RefreshDirectories

  /** A `forward_event` call: its event is reported, recorded, flagged, then signalled. */
  datatype Callback =
    | Reported(scope: EventScope, gitignore: bool, newDirectory: bool)
    | Pending(gitignore: bool, newDirectory: bool)
    | Flagged(newDirectory: bool)

  datatype Worker =
    | Listening
    | Woken(signal: Signal)
    | TookScope(signal: Signal, refresh: bool)
    | Emitting(signal: Signal, refresh: bool, repositories: set<Alias>)
    | Reinstalling(signal: Signal)

  datatype Message = Ready | Dirty(refresh: bool, repositories: set<Alias>)

  datatype Reader = Reading | Notifying

  datatype Pipeline = Pipeline(
    callbacks: seq<Callback>,
    pending: Touched, pendingRefresh: bool, pendingDirectories: bool,
    wake: Option<Signal>,
    worker: Worker,
    pipe: seq<Message>,
    reader: Reader,
    state: Touched, stateRefresh: bool,
    notice: bool)

  const IDLE := Pipeline([], UNTOUCHED, false, false, None, Listening, [], Reading, UNTOUCHED, false, false)

  datatype PipeStep =
    | RecordChange(callback: nat)
    | SetFlags(callback: nat)
    | TrySend(callback: nat)
    | Receive | TakeScope | TakeTouched | Emit(fits: bool) | Reinstall
    | ReadMessage | Notify

  predicate PipeEnabled(p: Pipeline, step: PipeStep) {
    match step
    case RecordChange(i) => i < |p.callbacks| && p.callbacks[i].Reported?
    case SetFlags(i) => i < |p.callbacks| && p.callbacks[i].Pending?
    case TrySend(i) => i < |p.callbacks| && p.callbacks[i].Flagged?
    case Receive => p.worker.Listening? && p.wake.Some?
    case TakeScope => p.worker.Woken?
    case TakeTouched => p.worker.TookScope?
    case Emit(_) => p.worker.Emitting?
    case Reinstall => p.worker.Reinstalling?
    case ReadMessage => p.reader.Reading? && p.pipe != []
    case Notify => p.reader.Notifying?
  }

  function Without<T>(xs: seq<T>, i: nat): seq<T>
    requires i < |xs|
  {
    xs[..i] + xs[i + 1..]
  }

  function PipeApply(p: Pipeline, step: PipeStep): Pipeline
    requires PipeEnabled(p, step)
  {
    match step
    case RecordChange(i) =>
      var c := p.callbacks[i];
      p.(pending := Recorded(p.pending, c.scope),
         callbacks := p.callbacks[i := Pending(c.gitignore, c.newDirectory)])
    case SetFlags(i) =>
      var c := p.callbacks[i];
      p.(pendingRefresh := p.pendingRefresh || c.gitignore,
         pendingDirectories := p.pendingDirectories || c.newDirectory,
         callbacks := p.callbacks[i := Flagged(c.newDirectory)])
    case TrySend(i) =>
      var signal := if p.callbacks[i].newDirectory then RefreshDirectories else DirtySignal;
      p.(wake := if p.wake.Some? then p.wake else Some(signal), callbacks := Without(p.callbacks, i))
    case Receive => p.(worker := Woken(p.wake.value), wake := None)
    case TakeScope => p.(worker := TookScope(p.worker.signal, p.pendingRefresh), pendingRefresh := false)
    case TakeTouched =>
      var taken := Selection(p.pending);
      p.(worker := Emitting(p.worker.signal, p.worker.refresh, if taken.Some? then taken.value else {}),
         pending := UNTOUCHED)
    case Emit(fits) =>
      p.(pipe := p.pipe + [Dirty(p.worker.refresh, if fits then p.worker.repositories else {})],
         worker := Reinstalling(p.worker.signal))
    case Reinstall => p.(pendingDirectories := false, pipe := p.pipe + [Ready], worker := Listening)
    case ReadMessage =>
      (match p.pipe[0]
       case Ready => p.(pipe := p.pipe[1..])
       case Dirty(refresh, repositories) =>
         p.(pipe := p.pipe[1..], reader := Notifying, stateRefresh := p.stateRefresh || refresh,
            state := Recorded(p.state,
                              if repositories == {} then Workspace else Repositories(repositories))))
    case Notify => p.(reader := Reading, notice := true)
  }

  // ---------------------------------------------------------------- where a change is

  predicate ScopeCarries(scope: EventScope, item: Item) {
    match item
    case Repo(alias) => scope.Workspace? || (scope.Repositories? && alias in scope.aliases)
    case All => scope.Workspace?
    case Refresh => false
  }

  predicate SelectionCarries(selection: Option<set<Alias>>, item: Item) {
    match item
    case Repo(alias) => selection.None? || alias in selection.value
    case All => selection.None?
    case Refresh => false
  }

  predicate TouchedCarries(t: Touched, item: Item) {
    match item
    case Repo(alias) => t.workspace || alias in t.aliases
    case All => t.workspace
    case Refresh => false
  }

  predicate CallbackCarries(c: Callback, item: Item) {
    match c
    case Reported(scope, gitignore, _) => ScopeCarries(scope, item) || (item.Refresh? && gitignore)
    case Pending(gitignore, _) => item.Refresh? && gitignore
    case Flagged(_) => false
  }

  predicate MessageCarries(m: Message, item: Item) {
    match m
    case Ready => false
    case Dirty(refresh, repositories) =>
      if item.Refresh? then refresh
      else repositories == {} || (item.Repo? && item.alias in repositories)
  }

  predicate WorkerCarries(w: Worker, item: Item) {
    match w
    case TookScope(_, refresh) => item.Refresh? && refresh
    case Emitting(_, refresh, repositories) => MessageCarries(Dirty(refresh, repositories), item)
    case _ => false
  }

  /** The change is somewhere between its callback and the reader state. */
  predicate PipeCarries(p: Pipeline, item: Item) {
    || (exists i :: 0 <= i < |p.callbacks| && CallbackCarries(p.callbacks[i], item))
    || TouchedCarries(p.pending, item) || (item.Refresh? && p.pendingRefresh)
    || WorkerCarries(p.worker, item)
    || (exists i :: 0 <= i < |p.pipe| && MessageCarries(p.pipe[i], item))
    || TouchedCarries(p.state, item) || (item.Refresh? && p.stateRefresh)
  }

  /** A wake-up of the event worker is queued, about to be sent, or being served. */
  ghost predicate WakeOutstanding(p: Pipeline) {
    || p.wake.Some? || p.worker.Woken? || p.worker.TookScope?
    || exists i :: 0 <= i < |p.callbacks| && !p.callbacks[i].Reported?
  }

  /** For the scope flag, a worker that already swapped the flag no longer counts. */
  ghost predicate FlagWakeOutstanding(p: Pipeline) {
    || p.wake.Some? || p.worker.Woken?
    || exists i :: 0 <= i < |p.callbacks| && p.callbacks[i].Flagged?
  }

  /**
   Nothing waits without a wake-up: recorded changes have one at the event worker, and read
   changes have one at the main loop (`serving` while the main loop is between them).
   */
  ghost predicate PipeInv(p: Pipeline, servingRefresh: bool, servingTouched: bool) {
    && (p.pending != UNTOUCHED ==> WakeOutstanding(p))
    && (p.pendingRefresh ==> FlagWakeOutstanding(p))
    && (p.state != UNTOUCHED ==> p.notice || p.reader.Notifying? || servingTouched)
    && (p.stateRefresh ==> p.notice || p.reader.Notifying? || servingRefresh)
  }

  lemma CallbackMoves(p: Pipeline, step: PipeStep, item: Item)
    requires PipeEnabled(p, step) && (step.RecordChange? || step.SetFlags? || step.TrySend?)
    requires PipeCarries(p, item)
    ensures PipeCarries(PipeApply(p, step), item)
  {
    var q := PipeApply(p, step);
    if j :| 0 <= j < |p.callbacks| && CallbackCarries(p.callbacks[j], item) {
      var i := step.callback;
      if j != i {
        var k := if step.TrySend? && j > i then j - 1 else j;
        assert q.callbacks[k] == p.callbacks[j];
      } else if item.Refresh? && step.RecordChange? {
        assert CallbackCarries(q.callbacks[i], item);
      }
    }
  }

  lemma WorkerMoves(p: Pipeline, step: PipeStep, item: Item)
    requires PipeEnabled(p, step)
    requires step.Receive? || step.TakeScope? || step.TakeTouched? || step.Emit? || step.Reinstall?
    requires PipeCarries(p, item)
    ensures PipeCarries(PipeApply(p, step), item)
  {
    var q := PipeApply(p, step);
    if i :| 0 <= i < |p.callbacks| && CallbackCarries(p.callbacks[i], item) {
      assert CallbackCarries(q.callbacks[i], item);
    } else if j :| 0 <= j < |p.pipe| && MessageCarries(p.pipe[j], item) {
      assert MessageCarries(q.pipe[j], item);
    } else if step.Emit? && WorkerCarries(p.worker, item) {
      assert MessageCarries(q.pipe[|p.pipe|], item);
    }
  }

  lemma ReaderMoves(p: Pipeline, step: PipeStep, item: Item)
    requires PipeEnabled(p, step) && (step.ReadMessage? || step.Notify?)
    requires PipeCarries(p, item)
    ensures PipeCarries(PipeApply(p, step), item)
  {
    var q := PipeApply(p, step);
    if i :| 0 <= i < |p.callbacks| && CallbackCarries(p.callbacks[i], item) {
      assert CallbackCarries(q.callbacks[i], item);
    } else if j :| 0 <= j < |p.pipe| && MessageCarries(p.pipe[j], item) {
      if step.ReadMessage? && j > 0 {
        assert q.pipe[j - 1] == p.pipe[j];
      } else if step.Notify? {
        assert q.pipe[j] == p.pipe[j];
      }
    }
  }

  /** No step of the pipeline drops a change it carries. */
  lemma PipeStepCarries(p: Pipeline, step: PipeStep, item: Item)
    requires PipeEnabled(p, step) && PipeCarries(p, item)
    ensures PipeCarries(PipeApply(p, step), item)
  {
    hide PipeCarries, PipeApply;
    if step.RecordChange? || step.SetFlags? || step.TrySend? {
      CallbackMoves(p, step, item);
    } else if step.ReadMessage? || step.Notify? {
      ReaderMoves(p, step, item);
    } else {
      WorkerMoves(p, step, item);
    }
  }

  /** Every step keeps wake-ups outstanding. */
  lemma PipeStepInv(p: Pipeline, step: PipeStep, refresh: bool, touched: bool)
    requires PipeEnabled(p, step) && PipeInv(p, refresh, touched)
    ensures PipeInv(PipeApply(p, step), refresh, touched)
  {
    hide PipeInv, PipeApply;
    if step.RecordChange? || step.SetFlags? || step.TrySend? {
      CallbackStepInv(p, step, refresh, touched);
    } else if step.ReadMessage? || step.Notify? {
      ReaderStepInv(p, step, refresh, touched);
    } else {
      WorkerStepInv(p, step, refresh, touched);
    }
  }

  lemma CallbackStepInv(p: Pipeline, step: PipeStep, refresh: bool, touched: bool)
    requires PipeEnabled(p, step) && PipeInv(p, refresh, touched)
    requires step.RecordChange? || step.SetFlags? || step.TrySend?
    ensures PipeInv(PipeApply(p, step), refresh, touched)
  {
    var q := PipeApply(p, step);
    if !step.TrySend? {
      assert !q.callbacks[step.callback].Reported?;
      if i :| 0 <= i < |p.callbacks| && p.callbacks[i].Flagged? {
        assert q.callbacks[i].Flagged?;
      }
    }
  }

  lemma WorkerStepInv(p: Pipeline, step: PipeStep, refresh: bool, touched: bool)
    requires PipeEnabled(p, step) && PipeInv(p, refresh, touched)
    requires step.Receive? || step.TakeScope? || step.TakeTouched? || step.Emit? || step.Reinstall?
    ensures PipeInv(PipeApply(p, step), refresh, touched)
  {
    assert PipeApply(p, step).callbacks == p.callbacks;
  }

  lemma ReaderStepInv(p: Pipeline, step: PipeStep, refresh: bool, touched: bool)
    requires PipeEnabled(p, step) && PipeInv(p, refresh, touched) && (step.ReadMessage? || step.Notify?)
    ensures PipeInv(PipeApply(p, step), refresh, touched)
  {
    assert PipeApply(p, step).callbacks == p.callbacks;
  }

  // ---------------------------------------------------------------- new directories

  /** The worker walks the directories again: for its flag, or for the signal it was woken with. */
  predicate Refreshes(p: Pipeline, step: PipeStep)
    requires PipeEnabled(p, step)
  {
    step.Reinstall? && (p.pendingDirectories || p.worker.signal.RefreshDirectories?)
  }

  predicate IsNewDirectory(c: Callback) {
    !c.Flagged? && c.newDirectory
  }

  /** A directory was created that the worker has not walked: its callback still has to set the
      flag, or the flag is set. */
  ghost predicate OwesDirectory(p: Pipeline) {
    p.pendingDirectories || exists i :: 0 <= i < |p.callbacks| && IsNewDirectory(p.callbacks[i])
  }

  /** A set flag has a wake-up queued, about to be sent, or being served. */
  ghost predicate DirectoryInv(p: Pipeline) {
    p.pendingDirectories ==>
      || p.wake.Some? || !p.worker.Listening?
      || exists i :: 0 <= i < |p.callbacks| && p.callbacks[i].Flagged?
  }

  lemma DirectoryStep(p: Pipeline, step: PipeStep)
    requires PipeEnabled(p, step) && OwesDirectory(p) && !Refreshes(p, step)
    ensures OwesDirectory(PipeApply(p, step))
  {
    var q := PipeApply(p, step);
    if !p.pendingDirectories {
      var j :| 0 <= j < |p.callbacks| && IsNewDirectory(p.callbacks[j]);
      if step.TrySend? {
        var k := if j > step.callback then j - 1 else j;
        assert q.callbacks[k] == p.callbacks[j];
      } else if step.RecordChange? || (step.SetFlags? && step.callback != j) {
        assert IsNewDirectory(q.callbacks[j]);
      } else if !step.SetFlags? {
        assert q.callbacks == p.callbacks;
      }
    }
  }

  lemma DirectoryStepInv(p: Pipeline, step: PipeStep)
    requires PipeEnabled(p, step) && DirectoryInv(p)
    ensures DirectoryInv(PipeApply(p, step))
  {
    var q := PipeApply(p, step);
    if step.SetFlags? {
      assert q.callbacks[step.callback].Flagged?;
    } else if step.RecordChange? {
      if i :| 0 <= i < |p.callbacks| && p.callbacks[i].Flagged? {
        assert q.callbacks[i].Flagged?;
      }
    } else if !step.TrySend? {
      assert q.callbacks == p.callbacks;
    }
  }

  // ---------------------------------------------------------------- where selections come from

  /** A repository is named anywhere between callback and reader state. */
  ghost predicate Names(p: Pipeline, alias: Alias) {
    || (exists i :: 0 <= i < |p.callbacks| && p.callbacks[i].Reported?
                    && p.callbacks[i].scope.Repositories? && alias in p.callbacks[i].scope.aliases)
    || alias in p.pending.aliases
    || (p.worker.Emitting? && alias in p.worker.repositories)
    || (exists i :: 0 <= i < |p.pipe| && p.pipe[i].Dirty? && alias in p.pipe[i].repositories)
    || alias in p.state.aliases
  }

  /** The whole workspace is named. */
  ghost predicate NamesAll(p: Pipeline) {
    || (exists i :: 0 <= i < |p.callbacks| && p.callbacks[i].Reported? && p.callbacks[i].scope.Workspace?)
    || p.pending.workspace
    || (p.worker.Emitting? && p.worker.repositories == {})
    || (exists i :: 0 <= i < |p.pipe| && p.pipe[i].Dirty? && p.pipe[i].repositories == {})
    || p.state.workspace
  }

  /** A scope refresh is asked for. */
  ghost predicate AsksRefresh(p: Pipeline) {
    || (exists i :: 0 <= i < |p.callbacks| && !p.callbacks[i].Flagged? && p.callbacks[i].gitignore)
    || p.pendingRefresh
    || ((p.worker.TookScope? || p.worker.Emitting?) && p.worker.refresh)
    || (exists i :: 0 <= i < |p.pipe| && p.pipe[i].Dirty? && p.pipe[i].refresh)
    || p.stateRefresh
  }

  /** The two steps that widen to the workspace: a message over the protocol bound, and a wake-up
      whose changes an earlier one took along. */
  predicate Widens(p: Pipeline, step: PipeStep)
    requires PipeEnabled(p, step)
  {
    step == Emit(false) || (step.TakeTouched? && p.pending == UNTOUCHED)
  }

  /** Where the queues of the next state come from. */
  lemma QueuesComeFrom(p: Pipeline, step: PipeStep)
    requires PipeEnabled(p, step)
    ensures var q := PipeApply(p, step);
            && (forall i :: 0 <= i < |q.callbacks| ==>
                  || q.callbacks[i] in p.callbacks
                  || (q.callbacks[i].Pending? && exists c <- p.callbacks ::
                        c.Reported? && c.gitignore == q.callbacks[i].gitignore)
                  || q.callbacks[i].Flagged?)
            && (forall i :: 0 <= i < |q.pipe| ==>
                  || q.pipe[i] in p.pipe || q.pipe[i].Ready?
                  || (step.Emit? && q.pipe[i]
                        == Dirty(p.worker.refresh, if step.fits then p.worker.repositories else {})))
  {
  }

  lemma NamesStep(p: Pipeline, step: PipeStep, alias: Alias)
    requires PipeEnabled(p, step) && Names(PipeApply(p, step), alias)
    ensures Names(p, alias)
  {
    QueuesComeFrom(p, step);
    var q := PipeApply(p, step);
    if i :| 0 <= i < |q.callbacks| && q.callbacks[i].Reported?
            && q.callbacks[i].scope.Repositories? && alias in q.callbacks[i].scope.aliases {
      assert q.callbacks[i] in p.callbacks;
    } else if j :| 0 <= j < |q.pipe| && q.pipe[j].Dirty? && alias in q.pipe[j].repositories {
    }
  }

  lemma NamesAllStep(p: Pipeline, step: PipeStep)
    requires PipeEnabled(p, step) && NamesAll(PipeApply(p, step)) && !Widens(p, step)
    ensures NamesAll(p)
  {
    QueuesComeFrom(p, step);
    var q := PipeApply(p, step);
    if i :| 0 <= i < |q.callbacks| && q.callbacks[i].Reported? && q.callbacks[i].scope.Workspace? {
      assert q.callbacks[i] in p.callbacks;
    } else if j :| 0 <= j < |q.pipe| && q.pipe[j].Dirty? && q.pipe[j].repositories == {} {
    }
  }

  lemma AsksRefreshStep(p: Pipeline, step: PipeStep)
    requires PipeEnabled(p, step) && AsksRefresh(PipeApply(p, step))
    ensures AsksRefresh(p)
  {
    QueuesComeFrom(p, step);
    var q := PipeApply(p, step);
    if i :| 0 <= i < |q.callbacks| && !q.callbacks[i].Flagged? && q.callbacks[i].gitignore {
    } else if j :| 0 <= j < |q.pipe| && q.pipe[j].Dirty? && q.pipe[j].refresh {
    }
  }
}
