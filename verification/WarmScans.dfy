/**
 One scan against a cold scan, with any caches, any files and any schedule: equal exactly where
 every reuse and every read is sound.
 */
module WarmScans {
  import opened Basics
  import opened Artifacts
  import opened Extractors
  import opened FocusedExtraction
  import opened FocusedAssembly
  import Fence = FailureFence

  // ---------------------------------------------------------------- the assembled result

  function PairKey(p: (StoredBatch, bool)): Key { KeyOf(p.0.source) }

  function OutputKey(o: Output): Key { KeyOf(o.source) }

  function Batches(pairs: seq<(StoredBatch, bool)>): seq<StoredBatch> {
    seq(|pairs|, i requires 0 <= i < |pairs| => pairs[i].0)
  }

  function Unpublished(pairs: seq<(StoredBatch, bool)>): (r: seq<nat>)
    ensures forall i :: i in r <==> 0 <= i < |pairs| && !pairs[i].1
    ensures forall i :: 0 <= i < |r| ==> r[i] < |pairs|
  {
    if pairs == [] then [] else
      var last := |pairs| - 1;
      Unpublished(pairs[..last]) + (if pairs[last].1 then [] else [last])
  }

  /** What the scan returns once the parallel stage is over. */
  function AssembledFrom(scan: Scan, observed: seq<Option<JobResult>>): Result<Assembly, Error>
    requires forall o <- Merged(observed) :: InRange(scan, o.slot)
  {
    match Fence.FirstError(observed)
    case Some(e) => Err(e)
    case None =>
      var os := Merged(observed);
      var sorted := StableSort(PairKey, StoredOf(scan, os));
      Ok(Assembly(Batches(sorted), Unpublished(sorted),
                  StableSort(OutputKey, OutputsOf(os)), NotesOf(os)))
  }

  // ---------------------------------------------------------------- which artifacts were answered

  /** Tasks of the jobs that succeeded. */
  ghost function Answered(jobs: seq<Job>, observed: seq<Option<JobResult>>): seq<Task>
    requires |jobs| == |observed|
  {
    if jobs == [] then [] else
      var last := |jobs| - 1;
      Answered(jobs[..last], observed[..last])
      + (if observed[last].Some? && observed[last].value.Ok? then Tasks(jobs[last]) else [])
  }

  ghost predicate RanOrSkipped(w: World, scan: Scan, jobs: seq<Job>, observed: seq<Option<JobResult>>)
  {
    && |observed| == |jobs|
    && forall i :: 0 <= i < |jobs| ==> observed[i] == Some(RunJob(w, scan, jobs[i])) || observed[i].None?
  }

  ghost predicate GoodJobs(scan: Scan, jobs: seq<Job>) {
    (forall job <- jobs :: GoodJob(scan, job)) && StrictlySorted(TaskKey, AllTasks(jobs))
  }

  lemma GoodPrefix(scan: Scan, jobs: seq<Job>)
    requires jobs != [] && GoodJobs(scan, jobs)
    ensures AllTasks(jobs) == AllTasks(jobs[..|jobs| - 1]) + Tasks(jobs[|jobs| - 1])
    ensures GoodJobs(scan, jobs[..|jobs| - 1]) && GoodJob(scan, jobs[|jobs| - 1])
  {
    hide GoodJob, KeyLess, Tasks;
    var init := jobs[..|jobs| - 1];
    var all := AllTasks(jobs);
    assert forall i :: 0 <= i < |AllTasks(init)| ==> all[i] == AllTasks(init)[i];
  }

  lemma WarmAppend(w: World, scan: Scan, a: seq<Task>, b: seq<Task>, x: seq<Outcome>, y: seq<Outcome>)
    requires AllWarm(w, scan, a, x) && AllWarm(w, scan, b, y)
    ensures AllWarm(w, scan, a + b, x + y)
  {
    hide Warm;
  }

  /** The merged outcomes are the answers of the answered artifacts, which keep the key order. */
  lemma {:induction false} AnsweredWarm(
    w: World, scan: Scan, jobs: seq<Job>, observed: seq<Option<JobResult>>)
    requires GoodJobs(scan, jobs) && RanOrSkipped(w, scan, jobs, observed)
    ensures AllWarm(w, scan, Answered(jobs, observed), Merged(observed))
    ensures forall t <- Answered(jobs, observed) :: t in AllTasks(jobs)
    ensures StrictlySorted(TaskKey, Answered(jobs, observed))
    decreases |jobs|
  {
    hide GoodJob, AllTasks, Tasks, RunJob, FirstWarmError, Warm;
    if jobs != [] {
      var last := |jobs| - 1;
      GoodPrefix(scan, jobs);
      AnsweredWarm(w, scan, jobs[..last], observed[..last]);
      if observed[last].Some? && observed[last].value.Ok? {
        JobAnswers(w, scan, jobs[last]);
        WarmAppend(w, scan, Answered(jobs[..last], observed[..last]), Tasks(jobs[last]),
                   Merged(observed[..last]), OutcomesOf(observed[last]));
        SortedParts(TaskKey, AllTasks(jobs[..last]), Tasks(jobs[last]),
                    Answered(jobs[..last], observed[..last]));
      } else {
        assert Answered(jobs, observed) == Answered(jobs[..last], observed[..last]);
        assert Merged(observed) == Merged(observed[..last]);
      }
    }
  }

  lemma SortedParts<T>(key: T -> Key, a: seq<T>, b: seq<T>, part: seq<T>)
    requires StrictlySorted(key, a + b) && StrictlySorted(key, part)
    requires forall x <- part :: x in a
    ensures StrictlySorted(key, part + b)
  {
    hide KeyLess;
    var all, r := a + b, part + b;
    forall i, j | 0 <= i < j < |r|
      ensures KeyLess(key(r[i]), key(r[j]))
    {
      if j >= |part| {
        if i < |part| {
          assert part[i] in part;
          var m :| 0 <= m < |a| && a[m] == part[i];
          assert KeyLess(key(all[m]), key(all[|a| + j - |part|]));
        } else {
          assert KeyLess(key(all[|a| + i - |part|]), key(all[|a| + j - |part|]));
        }
      }
    }
  }

  /** The "claimed twice" error cannot happen. */
  lemma NeverClaimedTwice(w: World, scan: Scan, tasks: seq<Task>, os: seq<Outcome>)
    requires AllWarm(w, scan, tasks, os) && StrictlySorted(TaskKey, tasks)
    ensures ClaimsOnce(scan, os)
  {
    hide Warm, Reusable;
    assert forall i :: 0 <= i < |os| ==> Warm(w, scan, tasks[i]) == Ok(os[i]);
    forall i, j | 0 <= i < j < |os| && !os[i].slot.Fresh?
      ensures os[i].slot != os[j].slot
    {
      assert KeyLess(TaskKey(tasks[i]), TaskKey(tasks[j]));
      KeyTotal(TaskKey(tasks[i]), TaskKey(tasks[j]));
      assert KeyOf(Resolve(scan, os[i].slot).source) == TaskKey(tasks[i]);
      assert KeyOf(Resolve(scan, os[j].slot).source) == TaskKey(tasks[j]);
    }
  }

  lemma {:induction false} FirstWarmErrorAppend(w: World, scan: Scan, a: seq<Task>, b: seq<Task>)
    ensures FirstWarmError(w, scan, a + b) ==
            (if FirstWarmError(w, scan, a).Some? then FirstWarmError(w, scan, a)
             else FirstWarmError(w, scan, b))
  {
    hide Warm;
    if a == [] {
      assert a + b == b;
    } else {
      assert (a + b)[1..] == a[1..] + b;
      FirstWarmErrorAppend(w, scan, a[1..], b);
    }
  }

  ghost function Ran(runs: seq<JobResult>): seq<Option<JobResult>> {
    seq(|runs|, i requires 0 <= i < |runs| => Some(runs[i]))
  }

  /** With nothing skipped, the first failing job fails with the first error among the answers. */
  lemma {:induction false} FirstErrorOfAll(w: World, scan: Scan, jobs: seq<Job>)
    requires GoodJobs(scan, jobs)
    ensures Fence.FirstError(Ran(Runs(w, scan, jobs))) == FirstWarmError(w, scan, AllTasks(jobs))
    decreases |jobs|
  {
    hide GoodJob, RunJob, Warm, Tasks;
    var all := Ran(Runs(w, scan, jobs));
    if jobs != [] {
      hide AllTasks, FirstWarmError;
      var last := |jobs| - 1;
      GoodPrefix(scan, jobs);
      FirstErrorOfAll(w, scan, jobs[..last]);
      assert Ran(Runs(w, scan, jobs[..last])) == all[..last];
      FirstErrorAppend(all[..last], all[last]);
      assert all == all[..last] + [all[last]];
      JobAnswers(w, scan, jobs[last]);
      FirstWarmErrorAppend(w, scan, AllTasks(jobs[..last]), Tasks(jobs[last]));
    }
  }

  /** If every job succeeded, every artifact is answered. */
  lemma {:induction false} EveryArtifactAnswered(jobs: seq<Job>, observed: seq<Option<JobResult>>)
    requires |observed| == |jobs|
    requires forall i :: 0 <= i < |jobs| ==> observed[i].Some? && observed[i].value.Ok?
    ensures Answered(jobs, observed) == AllTasks(jobs)
    decreases |jobs|
  {
    hide Tasks;
    if jobs != [] {
      var last := |jobs| - 1;
      EveryArtifactAnswered(jobs[..last], observed[..last]);
    }
  }

  lemma {:induction false} FocusedKeepsOrder(fps: seq<Fingerprint>)
    requires StrictlySorted(KeyOf, fps)
    ensures StrictlySorted(KeyOf, Focused(fps))
    ensures forall fp <- Focused(fps) :: fp in fps
  {
    hide IsFocused;
    if fps != [] {
      var init, last := fps[..|fps| - 1], fps[|fps| - 1];
      FocusedKeepsOrder(init);
      assert init + [last] == fps;
      SortedParts(KeyOf, init, [last], Focused(init));
    }
  }

  // ---------------------------------------------------------------- the merged views

  /** Outputs the merge keeps, in fingerprint order. */
  ghost function WarmOutputs(w: World, scan: Scan, tasks: seq<Task>): seq<Output> {
    if tasks == [] then [] else
      var warm := Warm(w, scan, tasks[|tasks| - 1]);
      WarmOutputs(w, scan, tasks[..|tasks| - 1])
      + (if warm.Ok? && warm.value.output.Some? then [warm.value.output.value] else [])
  }

  /** Notes the merge collects: those of the artifacts that were extracted. */
  ghost function WarmNotes(w: World, scan: Scan, tasks: seq<Task>): seq<Note> {
    if tasks == [] then [] else
      var warm := Warm(w, scan, tasks[|tasks| - 1]);
      WarmNotes(w, scan, tasks[..|tasks| - 1]) + (if warm.Ok? then warm.value.notes else [])
  }

  lemma {:induction false} MergedViews(w: World, scan: Scan, tasks: seq<Task>, os: seq<Outcome>)
    requires AllWarm(w, scan, tasks, os)
    ensures OutputsOf(os) == WarmOutputs(w, scan, tasks) && NotesOf(os) == WarmNotes(w, scan, tasks)
  {
    hide Warm;
    if tasks != [] {
      var last := |tasks| - 1;
      assert Warm(w, scan, tasks[last]) == Ok(os[last]);
      MergedViews(w, scan, tasks[..last], os[..last]);
    }
  }

  lemma {:induction false} OutputKeys(w: World, scan: Scan, tasks: seq<Task>)
    ensures forall o <- WarmOutputs(w, scan, tasks) :: exists t <- tasks :: TaskKey(t) == OutputKey(o)
  {
    hide Warm;
    if tasks != [] {
      var init, last := tasks[..|tasks| - 1], tasks[|tasks| - 1];
      OutputKeys(w, scan, init);
      assert tasks == init + [last];
      assert last in tasks;
    }
  }

  lemma {:induction false} OutputsSorted(w: World, scan: Scan, tasks: seq<Task>)
    requires StrictlySorted(TaskKey, tasks)
    ensures StrictlySorted(OutputKey, WarmOutputs(w, scan, tasks))
  {
    hide Warm, KeyLess;
    if tasks != [] {
      var init, last := tasks[..|tasks| - 1], tasks[|tasks| - 1];
      OutputsSorted(w, scan, init);
      OutputKeys(w, scan, init);
      var before := WarmOutputs(w, scan, init);
      forall j | 0 <= j < |before|
        ensures KeyLess(OutputKey(before[j]), TaskKey(last))
      {
        assert before[j] in before;
        var t :| t in init && TaskKey(t) == OutputKey(before[j]);
        var i :| 0 <= i < |init| && init[i] == t;
        assert KeyLess(TaskKey(tasks[i]), TaskKey(tasks[|tasks| - 1]));
      }
    }
  }

  /** The stored batches are the answered ones, one per artifact; only a reused published batch
      counts as published. */
  ghost predicate StoredAsWarm(
    w: World, scan: Scan, tasks: seq<Task>, pairs: seq<(StoredBatch, bool)>)
  {
    && |pairs| == |tasks|
    && forall i :: 0 <= i < |tasks| ==>
         && Warm(w, scan, tasks[i]).Ok?
         && pairs[i].0 == Resolve(scan, Warm(w, scan, tasks[i]).value.slot)
         && (pairs[i].1 <==> ReusesPublished(scan, tasks[i].artifact))
  }

  predicate ReusesPublished(scan: Scan, fp: Fingerprint) {
    Reusable(scan, fp).Some? && Reusable(scan, fp).value.1.Previous?
  }

  lemma MergedStored(w: World, scan: Scan, tasks: seq<Task>, os: seq<Outcome>)
    requires AllWarm(w, scan, tasks, os) && StrictlySorted(TaskKey, tasks)
    requires forall o <- os :: InRange(scan, o.slot)
    ensures StoredAsWarm(w, scan, tasks, StoredOf(scan, os))
    ensures StrictlySorted(PairKey, StoredOf(scan, os))
  {
    hide Warm, Reusable, KeyLess;
    assert forall i :: 0 <= i < |tasks| ==> Warm(w, scan, tasks[i]) == Ok(os[i]);
    assert forall i :: 0 <= i < |tasks| ==> PairKey(StoredOf(scan, os)[i]) == TaskKey(tasks[i]);
  }

  // ---------------------------------------------------------------- what any scan shows

  /** The batch an artifact ends with: the reusable one, or a new one of its own. */
  ghost predicate BatchFor(scan: Scan, fp: Fingerprint, b: StoredBatch) {
    match Reusable(scan, fp)
    case Some(reuse) => b == reuse.0
    case None => b.source == fp && Matches(scan, b, fp)
  }

  /** One batch for every focused artifact, in key order; unpublished unless reused from the table. */
  ghost predicate OneBatchEach(scan: Scan, a: Assembly) {
    var fps := Focused(scan.fingerprints);
    && |a.stored| == |fps|
    && (forall i :: 0 <= i < |fps| ==>
          && BatchFor(scan, fps[i], a.stored[i])
          && (i in a.unpublished <==> !ReusesPublished(scan, fps[i])))
    && (forall i :: 0 <= i < |a.unpublished| ==> a.unpublished[i] < |a.stored|)
  }

  /** A successful assembly shows the answer of every focused artifact, once and in key order. */
  ghost predicate LooksWarm(w: World, scan: Scan, tasks: seq<Task>, a: Assembly) {
    && ArtifactsOf(tasks) == Focused(scan.fingerprints)
    && |a.stored| == |tasks|
    && (forall i :: 0 <= i < |tasks| ==>
          && Warm(w, scan, tasks[i]).Ok?
          && a.stored[i] == Resolve(scan, Warm(w, scan, tasks[i]).value.slot)
          && (i in a.unpublished <==> !ReusesPublished(scan, tasks[i].artifact)))
    && (forall i :: 0 <= i < |a.unpublished| ==> a.unpublished[i] < |a.stored|)
    && a.outputs == WarmOutputs(w, scan, tasks)
    && a.notes == WarmNotes(w, scan, tasks)
  }

  lemma WarmIsOneBatchEach(w: World, scan: Scan, tasks: seq<Task>, a: Assembly)
    requires LooksWarm(w, scan, tasks, a)
    ensures OneBatchEach(scan, a)
  {
    hide Warm, Reusable, WarmOutputs, WarmNotes, Focused;
  }

  lemma PlannedIsGood(scan: Scan, jobs: seq<Job>)
    requires Planned(scan, scan.fingerprints, jobs) && StrictlySorted(KeyOf, scan.fingerprints)
    ensures GoodJobs(scan, jobs) && ArtifactsOf(AllTasks(jobs)) == Focused(scan.fingerprints)
  {
    hide GoodJob, AllAnswers, MaximalGroups, Focused, AllTasks, KeyLess;
    FocusedKeepsOrder(scan.fingerprints);
    TasksAnswer(jobs);
    var tasks, fps := AllTasks(jobs), Focused(scan.fingerprints);
    assert forall i :: 0 <= i < |tasks| ==> TaskKey(tasks[i]) == KeyOf(fps[i]);
  }

  /**
   Whatever the caches hold, whatever the files have become and whatever schedule the fence produced,
   the scan reports the first error among the answers of its artifacts, or all the answers; no batch
   is claimed twice, and every focused artifact has one batch.
   */
  lemma EveryScanAnswers(w: World, scan: Scan, jobs: seq<Job>, observed: seq<Option<JobResult>>)
    requires StrictlySorted(KeyOf, scan.fingerprints) && Planned(scan, scan.fingerprints, jobs)
    requires Fence.Fenced(Runs(w, scan, jobs), observed)
    ensures ClaimsOnce(scan, Merged(observed))
    ensures match FirstWarmError(w, scan, AllTasks(jobs))
            case Some(e) => AssembledFrom(scan, observed) == Err(e)
            case None =>
              && AssembledFrom(scan, observed).Ok?
              && LooksWarm(w, scan, AllTasks(jobs), AssembledFrom(scan, observed).value)
              && OneBatchEach(scan, AssembledFrom(scan, observed).value)
  {
    hide GoodJob, MaximalGroups, RunJob, FirstWarmError, Focused, LooksWarm, OneBatchEach, SortBy, AllTasks;
    var runs := Runs(w, scan, jobs);
    PlannedIsGood(scan, jobs);
    AnsweredWarm(w, scan, jobs, observed);
    NeverClaimedTwice(w, scan, Answered(jobs, observed), Merged(observed));
    FirstErrorOfAll(w, scan, jobs);
    Fence.ReportedErrorIsScheduleIndependent(runs, observed);
    Fence.ReportedErrorIsScheduleIndependent(runs, Ran(runs));
    if Fence.FirstFailure(runs).None? {
      EveryArtifactAnswered(jobs, observed);
      SuccessLooksWarm(w, scan, AllTasks(jobs), observed);
      WarmIsOneBatchEach(w, scan, AllTasks(jobs), AssembledFrom(scan, observed).value);
    }
  }

  lemma SuccessLooksWarm(w: World, scan: Scan, tasks: seq<Task>, observed: seq<Option<JobResult>>)
    requires ClaimsOnce(scan, Merged(observed)) && AllWarm(w, scan, tasks, Merged(observed))
    requires StrictlySorted(TaskKey, tasks) && ArtifactsOf(tasks) == Focused(scan.fingerprints)
    requires Fence.FirstError(observed).None?
    ensures AssembledFrom(scan, observed).Ok?
    ensures LooksWarm(w, scan, tasks, AssembledFrom(scan, observed).value)
  {
    hide Warm, Reusable, Focused, Merged, NotesOf, OutputsOf, SortBy, WarmOutputs, WarmNotes;
    var os := Merged(observed);
    var pairs := StoredOf(scan, os);
    MergedStored(w, scan, tasks, os);
    SortOfSorted(PairKey, pairs);
    MergedViews(w, scan, tasks, os);
    OutputsSorted(w, scan, tasks);
    SortOfSorted(OutputKey, OutputsOf(os));
  }

  // ---------------------------------------------------------------- the cold reference

  ghost function ColdOutputs(w: World, scan: Scan, fps: seq<Fingerprint>): seq<Output> {
    if fps == [] then [] else
      var cold := Cold(w, scan, fps[|fps| - 1]);
      ColdOutputs(w, scan, fps[..|fps| - 1])
      + (if cold.Ok? && cold.value.output.Some? then [cold.value.output.value] else [])
  }

  ghost function ColdNotes(w: World, scan: Scan, fps: seq<Fingerprint>): seq<Note> {
    if fps == [] then [] else
      var cold := Cold(w, scan, fps[|fps| - 1]);
      ColdNotes(w, scan, fps[..|fps| - 1]) + (if cold.Ok? then cold.value.notes else [])
  }

  /** `stored_batch_degradations` for one batch. */
  function StoredNotes(w: World, budget: Text, batch: StoredBatch): Result<seq<Note>, Error> {
    var lossy := LossyNotes(batch.lossy, batch.source.path.display);
    if batch.source.extractor != DATA_ARTIFACT then Ok(lossy)
    else
      match LoadBatch(w, budget, batch)
      case Err(e) => Err(e)
      case Ok(output) => Ok(lossy + IncompleteNotes(batch.source, output.documents))
  }

  function AllStoredNotes(w: World, budget: Text, batches: seq<StoredBatch>): Result<seq<Note>, Error> {
    if batches == [] then Ok([]) else
      var last := |batches| - 1;
      match AllStoredNotes(w, budget, batches[..last])
      case Err(e) => Err(e)
      case Ok(before) =>
        match StoredNotes(w, budget, batches[last])
        case Err(e) => Err(e)
        case Ok(notes) => Ok(before + notes)
  }

  ghost predicate ColdBatches(
    w: World, scan: Scan, fps: seq<Fingerprint>, batches: seq<StoredBatch>)
  {
    && |batches| == |fps|
    && forall i :: 0 <= i < |fps| ==>
         Cold(w, scan, fps[i]).Ok? && batches[i] == Cold(w, scan, fps[i]).value.slot.batch
  }

  /**
   A successful assembly shows what extracting every artifact afresh shows: its batches, its
   degradations, and its outputs as far as they have documents. The outputs are the very same
   unless an empty batch was used again.
   */
  ghost predicate LooksCold(w: World, scan: Scan, a: Assembly) {
    var fps := Focused(scan.fingerprints);
    && ColdBatches(w, scan, fps, a.stored)
    && WithDocuments(a.outputs) == WithDocuments(ColdOutputs(w, scan, fps))
    && (a.outputs == ColdOutputs(w, scan, fps) <==> forall fp <- fps :: !ReusesEmptyBatch(scan, fp))
    && var stored := AllStoredNotes(w, scan.budget, a.stored);
       && stored.Ok?
       && forall n :: n in a.notes + stored.value <==> n in ColdNotes(w, scan, fps)
  }

  /** The guard a caller can see: a reusable batch without outputs, from an extractor whose empty
      results count as outputs. */
  predicate ReusesEmptyBatch(scan: Scan, fp: Fingerprint) {
    var reuse := Reusable(scan, fp);
    && reuse.Some? && reuse.value.0.outputCount == 0
    && fp.extractor !in {GRAPHQL_SOURCE, EVENTS_SOURCE, PROTOBUF_GENERATED, DATA_SOURCE}
  }

  /** Every reuse and every read of the scan gives what cold extraction gives. */
  ghost predicate Sound(w: World, scan: Scan, t: Task) {
    SoundReuse(w, scan, t.artifact) && SoundRead(w, scan, t)
  }

  ghost predicate AllSound(w: World, scan: Scan, tasks: seq<Task>) {
    forall t <- tasks :: Sound(w, scan, t)
  }

  /** A stored batch still tells every degradation its extraction reported. */
  lemma StoredNotesAreColdNotes(w: World, scan: Scan, fp: Fingerprint)
    requires CodecInverts(w) && Cold(w, scan, fp).Ok?
    ensures StoredNotes(w, scan.budget, Cold(w, scan, fp).value.slot.batch)
            == Ok(Cold(w, scan, fp).value.notes)
  {
    hide IncompleteNotes, KindOf, OwnRoot;
    var content := w.contentOf(fp.contentHash);
    var documents := w.parse(scan.budget, content, OwnRoot(w, scan, fp), fp.path, fp.extractor).value;
    var output := Output(KindOf(fp.extractor), fp, documents);
    if fp.extractor == DATA_ARTIFACT {
      DataArtifactKeepsDocuments(output);
      StoreThenLoad(w, scan.budget, output, w.lossy(content));
    } else {
      NoIncompleteNotes(fp, documents);
      var lossy := LossyNotes(w.lossy(content), fp.path.display);
      assert lossy + [] == lossy;
    }
  }

  lemma {:induction false} AllStoredNotesAreColdNotes(
    w: World, scan: Scan, fps: seq<Fingerprint>, batches: seq<StoredBatch>)
    requires CodecInverts(w) && ColdBatches(w, scan, fps, batches)
    ensures AllStoredNotes(w, scan.budget, batches) == Ok(ColdNotes(w, scan, fps))
  {
    hide Cold, StoredNotes;
    if fps != [] {
      var last := |fps| - 1;
      AllStoredNotesAreColdNotes(w, scan, fps[..last], batches[..last]);
      StoredNotesAreColdNotes(w, scan, fps[last]);
    }
  }

  /** What a sound answer is: the cold outcome, but reuse brings no notes and no empty output. */
  lemma SoundAnswer(w: World, scan: Scan, t: Task)
    requires CodecInverts(w) && Sound(w, scan, t)
    ensures Reusable(scan, t.artifact).None? ==> Warm(w, scan, t) == Cold(w, scan, t.artifact)
    ensures Reusable(scan, t.artifact).Some? ==>
              && Warm(w, scan, t).Ok? && Cold(w, scan, t.artifact).Ok?
              && Warm(w, scan, t).value.notes == []
              && var output := Cold(w, scan, t.artifact).value.output;
                 Warm(w, scan, t).value.output
                 == if output.Some? && output.value.documents == [] then None else output
  {
    hide ExtractArtifact, Reusable, OwnRoot, Decoded, Read;
    if Reusable(scan, t.artifact).Some? {
      SoundReuseAnswers(w, scan, t.artifact);
      assert t == Task(t.lead, t.artifact);
    }
  }

  /** Reused artifacts add no notes while merging; extracted ones add their cold notes. */
  lemma {:induction false} WarmNotesAreColdNotes(w: World, scan: Scan, tasks: seq<Task>)
    requires CodecInverts(w) && AllSound(w, scan, tasks)
    ensures forall n <- WarmNotes(w, scan, tasks) :: n in ColdNotes(w, scan, ArtifactsOf(tasks))
  {
    hide Cold, Warm, Reusable, Sound;
    if tasks != [] {
      var init, last := tasks[..|tasks| - 1], tasks[|tasks| - 1];
      assert tasks == init + [last];
      assert ArtifactsOf(tasks)[..|init|] == ArtifactsOf(init);
      WarmNotesAreColdNotes(w, scan, init);
      SoundAnswer(w, scan, last);
    }
  }

  // ---------------------------------------------------------------- typed outputs, exactly

  /** Reuse answers without the output that extraction would have given. */
  ghost predicate DropsOutput(w: World, scan: Scan, fp: Fingerprint) {
    var cold := Cold(w, scan, fp);
    && Reusable(scan, fp).Some? && cold.Ok?
    && cold.value.output.Some? && cold.value.output.value.documents == []
  }

  ghost function WithDocuments(outputs: seq<Output>): seq<Output> {
    if outputs == [] then [] else
      var last := outputs[|outputs| - 1];
      WithDocuments(outputs[..|outputs| - 1]) + (if last.documents == [] then [] else [last])
  }

  lemma WithDocumentsAppend(outputs: seq<Output>, o: Output)
    ensures WithDocuments(outputs + [o])
            == if o.documents == [] then WithDocuments(outputs) else WithDocuments(outputs) + [o]
  {
    assert (outputs + [o])[..|outputs|] == outputs;
  }

  lemma OutputsStep(w: World, scan: Scan, init: seq<Task>, last: Task)
    requires CodecInverts(w) && Sound(w, scan, last) && Cold(w, scan, last.artifact).Ok?
    ensures var output := Cold(w, scan, last.artifact).value.output;
            var cold, warm := ColdOutputs(w, scan, ArtifactsOf(init)), WarmOutputs(w, scan, init);
            && ColdOutputs(w, scan, ArtifactsOf(init + [last]))
               == (if output.Some? then cold + [output.value] else cold)
            && WarmOutputs(w, scan, init + [last])
               == (if output.Some? && !DropsOutput(w, scan, last.artifact) then warm + [output.value]
                   else warm)
  {
    SoundAnswer(w, scan, last);
    ViewsStep(w, scan, init, last);
    hide Cold, Warm, Reusable, Sound, WarmOutputs, ColdOutputs;
    assert WarmOutputs(w, scan, init) + [] == WarmOutputs(w, scan, init);
    assert ColdOutputs(w, scan, ArtifactsOf(init)) + [] == ColdOutputs(w, scan, ArtifactsOf(init));
  }

  lemma ViewsStep(w: World, scan: Scan, init: seq<Task>, last: Task)
    ensures var cold, warm := Cold(w, scan, last.artifact), Warm(w, scan, last);
            && ColdOutputs(w, scan, ArtifactsOf(init + [last]))
               == ColdOutputs(w, scan, ArtifactsOf(init))
                  + (if cold.Ok? && cold.value.output.Some? then [cold.value.output.value] else [])
            && WarmOutputs(w, scan, init + [last])
               == WarmOutputs(w, scan, init)
                  + (if warm.Ok? && warm.value.output.Some? then [warm.value.output.value] else [])
  {
    hide Cold, Warm;
    assert (init + [last])[..|init|] == init;
    assert ArtifactsOf(init + [last])[..|init|] == ArtifactsOf(init);
  }

  ghost predicate SoundAndCold(w: World, scan: Scan, tasks: seq<Task>) {
    forall t <- tasks :: Sound(w, scan, t) && Cold(w, scan, t.artifact).Ok?
  }

  /** Reuse never loses a document. */
  lemma {:induction false} ReuseKeepsDocuments(w: World, scan: Scan, tasks: seq<Task>)
    requires CodecInverts(w) && SoundAndCold(w, scan, tasks)
    ensures WithDocuments(WarmOutputs(w, scan, tasks))
            == WithDocuments(ColdOutputs(w, scan, ArtifactsOf(tasks)))
  {
    hide Cold, Reusable, Sound, WarmOutputs, ColdOutputs, WithDocuments;
    if tasks == [] {
      NoOutputs(w, scan);
      assert ArtifactsOf(tasks) == [];
    } else {
      var init, last := tasks[..|tasks| - 1], tasks[|tasks| - 1];
      assert tasks == init + [last];
      ReuseKeepsDocuments(w, scan, init);
      OutputsStep(w, scan, init, last);
      var output := Cold(w, scan, last.artifact).value.output;
      if output.Some? {
        WithDocumentsAppend(WarmOutputs(w, scan, init), output.value);
        WithDocumentsAppend(ColdOutputs(w, scan, ArtifactsOf(init)), output.value);
      }
    }
  }

  lemma NoOutputs(w: World, scan: Scan)
    ensures WarmOutputs(w, scan, []) == [] && ColdOutputs(w, scan, []) == []
  {
  }

  /**
   Reuse drops the empty batch of an artifact that was scanned without finding anything: warm
   and cold output lists are equal if and only if no reused artifact has such a batch.
   */
  lemma {:induction false} OutputsEqualUnlessEmptyBatchReused(w: World, scan: Scan, tasks: seq<Task>)
    requires CodecInverts(w) && SoundAndCold(w, scan, tasks)
    ensures |WarmOutputs(w, scan, tasks)| <= |ColdOutputs(w, scan, ArtifactsOf(tasks))|
    ensures WarmOutputs(w, scan, tasks) == ColdOutputs(w, scan, ArtifactsOf(tasks))
            <==> forall t <- tasks :: !ReusesEmptyBatch(scan, t.artifact)
  {
    hide Cold, Reusable, Sound, WarmOutputs, ColdOutputs, DropsOutput, ReusesEmptyBatch;
    if tasks == [] {
      NoOutputs(w, scan);
      assert ArtifactsOf(tasks) == [];
    } else {
      var init, last := tasks[..|tasks| - 1], tasks[|tasks| - 1];
      assert tasks == init + [last];
      OutputsEqualUnlessEmptyBatchReused(w, scan, init);
      OutputsStep(w, scan, init, last);
      SoundHasReuse(w, scan, last);
      DropsExactlyEmptyReuses(w, scan, last.artifact);
      var warm, cold := WarmOutputs(w, scan, init), ColdOutputs(w, scan, ArtifactsOf(init));
      var output := Cold(w, scan, last.artifact).value.output;
      if output.Some? {
        assert (warm + [output.value])[..|warm|] == warm;
        assert (cold + [output.value])[..|cold|] == cold;
      }
    }
  }

  lemma SoundHasReuse(w: World, scan: Scan, t: Task)
    requires Sound(w, scan, t)
    ensures SoundReuse(w, scan, t.artifact)
  {
  }

  lemma DropsExactlyEmptyReuses(w: World, scan: Scan, fp: Fingerprint)
    requires SoundReuse(w, scan, fp) && Cold(w, scan, fp).Ok?
    ensures DropsOutput(w, scan, fp) <==> ReusesEmptyBatch(scan, fp)
    ensures DropsOutput(w, scan, fp) ==> Cold(w, scan, fp).value.output.Some?
  {
    if Reusable(scan, fp).Some? {
      ReuseIsColdIffSound(w, scan, fp);
      SourceScansOnly(fp);
      hide KindOf, Reusable, OwnRoot, SoundReuse;
    }
  }

  // ---------------------------------------------------------------- main results

  /** A read gave the cold batch if and only if it gave the cold result. */
  lemma ReadIsColdIffSound(w: World, scan: Scan, t: Task)
    requires CodecInverts(w) && Reusable(scan, t.artifact).None? && Read(w, scan, t).Ok?
    ensures (&& Cold(w, scan, t.artifact).Ok?
             && Read(w, scan, t).value.slot.batch == Cold(w, scan, t.artifact).value.slot.batch)
            <==> SoundRead(w, scan, t)
  {
    hide ExtractArtifact, RootAt, OwnRoot, CheckoutPaths, Reusable;
    var checkout := CheckoutPaths(scan.records)[t.lead.repo];
    var content := scan.tree.read(checkout, t.lead.path, t.lead.extractor).value;
    var fp := t.artifact;
    if && Cold(w, scan, fp).Ok?
       && Read(w, scan, t).value.slot.batch == Cold(w, scan, fp).value.slot.batch
    {
      BatchDeterminesOutcome(w, scan.budget, content, RootAt(w, scan.tree, checkout, content, fp),
                             w.contentOf(fp.contentHash), OwnRoot(w, scan, fp), fp);
    }
  }

  lemma AnswerIsColdIffSound(w: World, scan: Scan, t: Task)
    requires CodecInverts(w) && Warm(w, scan, t).Ok?
    ensures (&& Cold(w, scan, t.artifact).Ok?
             && Resolve(scan, Warm(w, scan, t).value.slot) == Cold(w, scan, t.artifact).value.slot.batch)
            <==> Sound(w, scan, t)
  {
    hide ExtractArtifact, Reusable, OwnRoot, Read, Cold, Decoded;
    if Reusable(scan, t.artifact).Some? {
      ReuseIsColdIffSound(w, scan, t.artifact);
    } else {
      ReadIsColdIffSound(w, scan, t);
    }
  }

  /** The batches of an assembly are the cold ones if and only if every reuse and read is sound. */
  lemma BatchesAreColdIffSound(w: World, scan: Scan, tasks: seq<Task>, a: Assembly)
    requires CodecInverts(w) && LooksWarm(w, scan, tasks, a)
    ensures ColdBatches(w, scan, Focused(scan.fingerprints), a.stored) <==> AllSound(w, scan, tasks)
  {
    hide Cold, Warm, Reusable, Sound, WarmOutputs, WarmNotes, Focused;
    var fps := ArtifactsOf(tasks);
    forall i | 0 <= i < |tasks|
      ensures (Cold(w, scan, fps[i]).Ok? && a.stored[i] == Cold(w, scan, fps[i]).value.slot.batch)
              <==> Sound(w, scan, tasks[i])
    {
      AnswerIsColdIffSound(w, scan, tasks[i]);
    }
    forall t | t in tasks && ColdBatches(w, scan, fps, a.stored)
      ensures Sound(w, scan, t)
    {
      var i :| 0 <= i < |tasks| && tasks[i] == t;
    }
  }

  /** What a successful scan shows is the cold result if and only if every reuse and read is sound. */
  lemma LooksColdIffSound(w: World, scan: Scan, tasks: seq<Task>, a: Assembly)
    requires CodecInverts(w) && LooksWarm(w, scan, tasks, a)
    ensures LooksCold(w, scan, a) <==> AllSound(w, scan, tasks)
  {
    hide Cold, Reusable, Sound, WarmOutputs, WarmNotes, ColdOutputs, ColdNotes, Focused,
         WithDocuments, AllStoredNotes, ReusesEmptyBatch, Warm;
    BatchesAreColdIffSound(w, scan, tasks, a);
    if AllSound(w, scan, tasks) {
      var fps := Focused(scan.fingerprints);
      forall t | t in tasks
        ensures Cold(w, scan, t.artifact).Ok?
      {
        var i :| 0 <= i < |tasks| && tasks[i] == t;
        assert fps[i] == t.artifact;
      }
      ReuseKeepsDocuments(w, scan, tasks);
      OutputsEqualUnlessEmptyBatchReused(w, scan, tasks);
      assert (forall fp <- fps :: !ReusesEmptyBatch(scan, fp))
             <==> forall t <- tasks :: !ReusesEmptyBatch(scan, t.artifact) by {
        assert forall t <- tasks :: t.artifact in fps;
      }
      AllStoredNotesAreColdNotes(w, scan, fps, a.stored);
      WarmNotesAreColdNotes(w, scan, tasks);
    }
  }

  /** Sound answers fail exactly where cold extraction does, and with its error. */
  lemma {:induction false} SoundErrorsAreCold(w: World, scan: Scan, tasks: seq<Task>)
    requires CodecInverts(w) && AllSound(w, scan, tasks)
    ensures FirstWarmError(w, scan, tasks) == FirstColdError(w, scan, ArtifactsOf(tasks))
  {
    hide Cold, Warm, Reusable, Sound;
    if tasks != [] {
      assert ArtifactsOf(tasks)[1..] == ArtifactsOf(tasks[1..]);
      SoundErrorsAreCold(w, scan, tasks[1..]);
      SoundAnswer(w, scan, tasks[0]);
    }
  }

  /**
   Warm equals cold, exactly. Whatever batches are published or checkpointed, whatever was read and
   whatever schedule the fence produced, the scan gives the answers of its artifacts or the first
   error among them; it shows what a cold scan shows if and only if every reuse and every read is
   sound, and then it also reports the error a cold scan reports.
   */
  lemma WarmEqualsCold(w: World, scan: Scan, jobs: seq<Job>, observed: seq<Option<JobResult>>)
    requires CodecInverts(w) && StrictlySorted(KeyOf, scan.fingerprints)
    requires Planned(scan, scan.fingerprints, jobs) && Fence.Fenced(Runs(w, scan, jobs), observed)
    ensures ClaimsOnce(scan, Merged(observed))
    ensures match FirstWarmError(w, scan, AllTasks(jobs))
            case Some(e) => AssembledFrom(scan, observed) == Err(e)
            case None =>
              && AssembledFrom(scan, observed).Ok?
              && LooksWarm(w, scan, AllTasks(jobs), AssembledFrom(scan, observed).value)
              && (LooksCold(w, scan, AssembledFrom(scan, observed).value)
                  <==> AllSound(w, scan, AllTasks(jobs)))
    ensures AllSound(w, scan, AllTasks(jobs)) ==>
              FirstWarmError(w, scan, AllTasks(jobs))
              == FirstColdError(w, scan, Focused(scan.fingerprints))
  {
    hide Planned, LooksWarm, LooksCold, OneBatchEach, AssembledFrom, FirstWarmError, FirstColdError, Focused,
         Runs, Merged, AllTasks, StrictlySorted, AllSound;
    EveryScanAnswers(w, scan, jobs, observed);
    PlannedIsGood(scan, jobs);
    if FirstWarmError(w, scan, AllTasks(jobs)).None? {
      LooksColdIffSound(w, scan, AllTasks(jobs), AssembledFrom(scan, observed).value);
    }
    if AllSound(w, scan, AllTasks(jobs)) {
      SoundErrorsAreCold(w, scan, AllTasks(jobs));
    }
  }

  /** What a scan returns is the cold scan's result. */
  ghost predicate GivesCold(w: World, scan: Scan, r: Result<Assembly, Error>) {
    match FirstColdError(w, scan, Focused(scan.fingerprints))
    case Some(e) => r == Err(e)
    case None => r.Ok? && LooksCold(w, scan, r.value)
  }

  /** Every reused batch is sound. */
  ghost predicate SoundReuses(w: World, scan: Scan) {
    forall fp <- Focused(scan.fingerprints) :: SoundReuse(w, scan, fp)
  }

  /** The condition a caller can check on reads, with sound reuse, makes everything sound. */
  lemma StillTreeIsSound(w: World, scan: Scan, jobs: seq<Job>)
    requires StillTree(w, scan) && OwnCheckouts(scan) && SoundReuses(w, scan)
    requires StrictlySorted(KeyOf, scan.fingerprints) && Planned(scan, scan.fingerprints, jobs)
    ensures AllSound(w, scan, AllTasks(jobs))
  {
    hide StillTree, OwnCheckouts, Planned, AllTasks, StrictlySorted, SoundReuse, SoundRead, Focused;
    StillTreeReadsSoundly(w, scan, jobs);
    PlannedIsGood(scan, jobs);
    var tasks, fps := AllTasks(jobs), Focused(scan.fingerprints);
    forall t | t in tasks
      ensures Sound(w, scan, t)
    {
      var i :| 0 <= i < |tasks| && tasks[i] == t;
      assert fps[i] == t.artifact;
    }
  }

  /** The parallel stage itself: with files that hold still in their own checkout and sound reuse,
      every complete interleaving of the workers gives the cold result. */
  lemma EveryScheduleLooksCold(
    w: World, scan: Scan, jobs: seq<Job>, schedule: seq<Fence.Step>, s: Fence.State)
    requires CodecInverts(w) && StillTree(w, scan) && OwnCheckouts(scan) && SoundReuses(w, scan)
    requires StrictlySorted(KeyOf, scan.fingerprints) && Planned(scan, scan.fingerprints, jobs)
    requires Fence.Reaches(Runs(w, scan, jobs), schedule, s) && Fence.Complete(s)
    ensures |s.jobs| == |jobs|
    ensures var observed := Fence.Observed(Runs(w, scan, jobs), s);
            ClaimsOnce(scan, Merged(observed)) && GivesCold(w, scan, AssembledFrom(scan, observed))
  {
    hide StillTree, OwnCheckouts, SoundReuses, AllSound, Planned, LooksCold, FirstWarmError, Focused,
         AssembledFrom, Merged, RunJob, LooksWarm, AllTasks, StrictlySorted;
    StillTreeIsSound(w, scan, jobs);
    Fence.ScheduleNeverSkipsEarlierJobs(Runs(w, scan, jobs), schedule, s);
    WarmEqualsCold(w, scan, jobs, Fence.Observed(Runs(w, scan, jobs), s));
  }

  /** The executable counterpart: the merge of the given parallel results. */
  method Assemble(ghost w: World, scan: Scan, ghost jobs: seq<Job>, observed: seq<Option<JobResult>>)
    returns (r: Result<Assembly, Error>, handed: seq<StoredBatch>)
    requires StrictlySorted(KeyOf, scan.fingerprints) && Planned(scan, scan.fingerprints, jobs)
    requires Fence.Fenced(Runs(w, scan, jobs), observed)
    ensures match FirstWarmError(w, scan, AllTasks(jobs))
            case Some(e) => r == Err(e)
            case None => r.Ok? && LooksWarm(w, scan, AllTasks(jobs), r.value) && OneBatchEach(scan, r.value)
    ensures CodecInverts(w) && AllSound(w, scan, AllTasks(jobs)) ==> GivesCold(w, scan, r)
    ensures handed == FreshOf(Merged(observed))
  {
    hide AllSound, Planned, LooksCold, LooksWarm, OneBatchEach, FirstWarmError, FirstColdError, Focused,
         SortBy, Merged, FreshOf, OutputsOf, AllTasks, StrictlySorted, CodecInverts;
    EveryScanAnswers(w, scan, jobs, observed);
    if CodecInverts(w) {
      WarmEqualsCold(w, scan, jobs, observed);
    }
    var claimed, stored, outputs, notes, extracted, firstError := MergeResults(scan, observed);
    handed := extracted;
    if !claimed {
      r := Err(ClaimedTwice);
    } else if firstError.Some? {
      r := Err(firstError.value);
    } else {
      var sorted := StableSort(PairKey, stored);
      r := Ok(Assembly(Batches(sorted), Unpublished(sorted), StableSort(OutputKey, outputs), notes));
    }
  }

  // ---------------------------------------------------------------- checkpoints on failure

  lemma {:induction false} FreshContains(os: seq<Outcome>, o: Outcome)
    requires o in os && o.slot.Fresh?
    ensures o.slot.batch in FreshOf(os)
  {
    var init, last := os[..|os| - 1], os[|os| - 1];
    assert os == init + [last];
    if o != last {
      FreshContains(init, o);
    }
  }

  lemma {:induction false} MergedContains(observed: seq<Option<JobResult>>, i: nat, o: Outcome)
    requires i < |observed| && o in OutcomesOf(observed[i])
    ensures o in Merged(observed)
    decreases |observed|
  {
    if i < |observed| - 1 {
      MergedContains(observed[..|observed| - 1], i, o);
    }
  }

  /** Every fresh batch of every job before the first failure is handed to the checkpoint write,
      whatever the schedule did to the jobs after it. */
  lemma EarlierBatchesAreCheckpointed(
    w: World, scan: Scan, jobs: seq<Job>, observed: seq<Option<JobResult>>, i: nat, o: Outcome)
    requires Fence.Fenced(Runs(w, scan, jobs), observed)
    requires i < |jobs| && RunJob(w, scan, jobs[i]).Ok? && o in RunJob(w, scan, jobs[i]).value
    requires o.slot.Fresh?
    requires var f := Fence.FirstFailure(Runs(w, scan, jobs)); f.Some? ==> i < f.value
    ensures o.slot.batch in FreshOf(Merged(observed))
  {
    hide RunJob;
    var runs := Runs(w, scan, jobs);
    var first := Fence.FirstFailure(runs);
    if first.Some? {
      assert Fence.LowestFailure(runs, first.value);
    }
    assert observed[i] == Some(runs[i]);
    MergedContains(observed, i, o);
    FreshContains(Merged(observed), o);
  }
}
