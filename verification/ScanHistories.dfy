/**
 Histories of scans that share a published table and a checkpoint cache, and the inputs on which a
 scan of a history differs from a cold one.
 */
module ScanHistories {
  import opened Basics
  import opened Artifacts
  import opened Extractors
  import opened FocusedExtraction
  import opened FocusedAssembly
  import opened WarmScans
  import Fence = FailureFence

  /** What outlives a scan: the published batches and the checkpoint cache. */
  datatype Caches = Caches(published: set<StoredBatch>, checkpoints: set<StoredBatch>)

  datatype ScanRun = ScanRun(scan: Scan, jobs: seq<Job>, observed: seq<Option<JobResult>>, after: Caches)

  /** One scan that starts from `before`: the caches may offer any of their batches, and the
      checkpoint cache may forget any of them afterwards; a failed scan, or one that fails later,
      publishes nothing. The scan may be partial, and its files may change while it runs. */
  ghost predicate ScanStep(w: World, before: Caches, run: ScanRun) {
    && (forall b <- run.scan.previous :: b in before.published)
    && (forall b <- run.scan.checkpointed :: b in before.checkpoints)
    && StrictlySorted(KeyOf, run.scan.fingerprints)
    && Planned(run.scan, run.scan.fingerprints, run.jobs)
    && Fence.Fenced(Runs(w, run.scan, run.jobs), run.observed)
    && (forall b <- run.after.checkpoints ::
          b in before.checkpoints || b in FreshOf(Merged(run.observed)))
    && (run.after.published == before.published
        || (ClaimsOnce(run.scan, Merged(run.observed))
            && AssembledFrom(run.scan, run.observed).Ok?
            && run.after.published == Elements(AssembledFrom(run.scan, run.observed).value.stored)))
  }

  function Elements(batches: seq<StoredBatch>): set<StoredBatch> {
    set b | b in batches
  }

  /** The run returned this assembly. */
  ghost predicate Returned(run: ScanRun, a: Assembly) {
    ClaimsOnce(run.scan, Merged(run.observed)) && AssembledFrom(run.scan, run.observed) == Ok(a)
  }

  /** The run failed with this error. */
  ghost predicate Failed(run: ScanRun, e: Error) {
    ClaimsOnce(run.scan, Merged(run.observed)) && AssembledFrom(run.scan, run.observed) == Err(e)
  }

  function Before(runs: seq<ScanRun>, i: nat): Caches
    requires i <= |runs|
  {
    if i == 0 then Caches({}, {}) else runs[i - 1].after
  }

  /** Scans that follow each other, the first one with empty caches. */
  ghost predicate History(w: World, runs: seq<ScanRun>) {
    forall i :: 0 <= i < |runs| ==> ScanStep(w, Before(runs, i), runs[i])
  }

  // ---------------------------------------------------------------- where batches come from

  /** The run read the task's file and extracted this batch. */
  ghost predicate Extracts(w: World, run: ScanRun, t: Task, b: StoredBatch) {
    && t in AllTasks(run.jobs) && Reusable(run.scan, t.artifact).None?
    && Read(w, run.scan, t).Ok? && Read(w, run.scan, t).value.slot.batch == b
  }

  /** The batch was extracted by one of the first `n` scans. */
  ghost predicate Born(w: World, runs: seq<ScanRun>, n: nat, b: StoredBatch)
    requires n <= |runs|
  {
    exists j, t :: 0 <= j < n && Extracts(w, runs[j], t, b)
  }

  ghost predicate AllBorn(w: World, runs: seq<ScanRun>, n: nat, batches: set<StoredBatch>)
    requires n <= |runs|
  {
    forall b <- batches :: Born(w, runs, n, b)
  }

  lemma {:induction false} FreshIsRead(w: World, scan: Scan, tasks: seq<Task>, os: seq<Outcome>, b: StoredBatch)
    requires AllWarm(w, scan, tasks, os) && b in FreshOf(os)
    ensures exists t <- tasks :: && Reusable(scan, t.artifact).None? && Read(w, scan, t).Ok?
                                 && Read(w, scan, t).value.slot.batch == b
  {
    hide Read, Reusable, Decoded;
    var last := |tasks| - 1;
    assert Warm(w, scan, tasks[last]) == Ok(os[last]);
    if b in FreshOf(os[..last]) {
      FreshIsRead(w, scan, tasks[..last], os[..last], b);
    } else {
      assert tasks[last] in tasks;
    }
  }

  /** A stored batch was read by this run or offered by a cache. */
  lemma StoredIsReadOrOffered(w: World, run: ScanRun, a: Assembly, b: StoredBatch)
    requires LooksWarm(w, run.scan, AllTasks(run.jobs), a) && b in a.stored
    ensures (exists t :: Extracts(w, run, t, b)) || b in run.scan.previous || b in run.scan.checkpointed
  {
    hide Read, Focused, WarmOutputs, WarmNotes, AllTasks, Decoded;
    var tasks := AllTasks(run.jobs);
    var i :| 0 <= i < |a.stored| && a.stored[i] == b;
    if Reusable(run.scan, tasks[i].artifact).None? {
      assert Extracts(w, run, tasks[i], b);
    }
  }

  lemma BornLater(w: World, runs: seq<ScanRun>, n: nat, batches: set<StoredBatch>)
    requires n < |runs| && AllBorn(w, runs, n, batches)
    ensures AllBorn(w, runs, n + 1, batches)
  {
    hide Extracts;
    forall b | b in batches
      ensures Born(w, runs, n + 1, b)
    {
      assert Born(w, runs, n, b);
    }
  }

  lemma BornNow(w: World, runs: seq<ScanRun>, n: nat, b: StoredBatch)
    requires n < |runs| && exists t :: Extracts(w, runs[n], t, b)
    ensures Born(w, runs, n + 1, b)
  {
  }

  lemma StepAnswers(w: World, run: ScanRun)
    requires StrictlySorted(KeyOf, run.scan.fingerprints)
    requires Planned(run.scan, run.scan.fingerprints, run.jobs)
    requires Fence.Fenced(Runs(w, run.scan, run.jobs), run.observed)
    ensures forall b <- FreshOf(Merged(run.observed)) :: exists t :: Extracts(w, run, t, b)
    ensures ClaimsOnce(run.scan, Merged(run.observed))
    ensures AssembledFrom(run.scan, run.observed).Ok? ==>
              && LooksWarm(w, run.scan, AllTasks(run.jobs), AssembledFrom(run.scan, run.observed).value)
              && OneBatchEach(run.scan, AssembledFrom(run.scan, run.observed).value)
  {
    hide GoodJob, MaximalGroups, RunJob, LooksWarm, OneBatchEach, AssembledFrom, Focused, AllTasks, Read,
         Reusable, FreshOf;
    var tasks := Answered(run.jobs, run.observed);
    PlannedIsGood(run.scan, run.jobs);
    AnsweredWarm(w, run.scan, run.jobs, run.observed);
    forall b | b in FreshOf(Merged(run.observed))
      ensures exists t :: Extracts(w, run, t, b)
    {
      FreshIsRead(w, run.scan, tasks, Merged(run.observed), b);
      var t :| t in tasks && Reusable(run.scan, t.artifact).None? && Read(w, run.scan, t).Ok?
               && Read(w, run.scan, t).value.slot.batch == b;
      assert Extracts(w, run, t, b);
    }
    EveryScanAnswers(w, run.scan, run.jobs, run.observed);
  }

  /** A scan, successful or failed, leaves only batches that some scan extracted. */
  lemma StepKeepsBorn(w: World, runs: seq<ScanRun>, n: nat)
    requires n < |runs| && ScanStep(w, Before(runs, n), runs[n])
    requires AllBorn(w, runs, n, Before(runs, n).published)
    requires AllBorn(w, runs, n, Before(runs, n).checkpoints)
    ensures AllBorn(w, runs, n + 1, runs[n].after.published)
    ensures AllBorn(w, runs, n + 1, runs[n].after.checkpoints)
  {
    hide Extracts, Planned, LooksWarm, OneBatchEach, AssembledFrom, Merged, FreshOf, Born, StrictlySorted;
    var run, before := runs[n], Before(runs, n);
    BornLater(w, runs, n, before.published);
    BornLater(w, runs, n, before.checkpoints);
    StepAnswers(w, run);
    forall b | b in run.after.checkpoints
      ensures Born(w, runs, n + 1, b)
    {
      if b !in before.checkpoints {
        BornNow(w, runs, n, b);
      }
    }
    if run.after.published != before.published {
      var a := AssembledFrom(run.scan, run.observed).value;
      forall b | b in run.after.published
        ensures Born(w, runs, n + 1, b)
      {
        StoredIsReadOrOffered(w, run, a, b);
        if b !in run.scan.previous && b !in run.scan.checkpointed {
          BornNow(w, runs, n, b);
        }
      }
    }
  }

  lemma {:induction false} HistoryIsBorn(w: World, runs: seq<ScanRun>, n: nat)
    requires History(w, runs) && n <= |runs|
    ensures AllBorn(w, runs, n, Before(runs, n).published)
    ensures AllBorn(w, runs, n, Before(runs, n).checkpoints)
  {
    hide ScanStep, Born;
    if n > 0 {
      HistoryIsBorn(w, runs, n - 1);
      assert ScanStep(w, Before(runs, n - 1), runs[n - 1]);
      StepKeepsBorn(w, runs, n - 1);
    }
  }

  // ---------------------------------------------------------------- every scan of a history

  /** Every reused batch records the size its artifact has now. */
  ghost predicate SizesKept(scan: Scan) {
    forall fp <- Focused(scan.fingerprints) ::
      Reusable(scan, fp).Some? ==> Reusable(scan, fp).value.0.source.size == fp.size
  }

  /** The artifact is reused by scan `i`, and scan `j` extracted it with the same hash. */
  ghost predicate Serves(runs: seq<ScanRun>, j: nat, t: Task, i: nat, fp: Fingerprint) {
    && j < i < |runs| && t in AllTasks(runs[j].jobs) && Reusable(runs[j].scan, t.artifact).None?
    && fp in Focused(runs[i].scan.fingerprints) && Reusable(runs[i].scan, fp).Some?
    && KeyOf(t.artifact) == KeyOf(fp) && t.artifact.contentHash == fp.contentHash
  }

  /** The crate root of every reused artifact is what it was in the scans that extracted it. Only
      Rust sources that mention a database crate have one. */
  ghost predicate RootsKept(w: World, runs: seq<ScanRun>, i: nat)
    requires i < |runs|
  {
    forall j: nat, t, fp :: Serves(runs, j, t, i, fp) ==>
      OwnRoot(w, runs[j].scan, fp) == OwnRoot(w, runs[i].scan, fp)
  }

  /** The reads of this scan were sound, and so were the earlier ones of every artifact it reuses. */
  ghost predicate ReadsSound(w: World, runs: seq<ScanRun>, i: nat)
    requires i < |runs|
  {
    && (forall t <- AllTasks(runs[i].jobs) :: SoundRead(w, runs[i].scan, t))
    && (forall j: nat, t, fp :: Serves(runs, j, t, i, fp) ==> SoundRead(w, runs[j].scan, t))
  }

  /** What a caller can check: in every scan so far, the extracted files held still where they were
      read, in their own checkout. */
  lemma StillTreesReadSoundly(w: World, runs: seq<ScanRun>, i: nat)
    requires History(w, runs) && i < |runs|
    requires forall j :: 0 <= j <= i ==> StillTree(w, runs[j].scan) && OwnCheckouts(runs[j].scan)
    ensures ReadsSound(w, runs, i)
  {
    hide StillTree, OwnCheckouts, SoundRead, Focused, AllTasks, Reusable, Planned;
    forall j | 0 <= j <= i
      ensures forall t <- AllTasks(runs[j].jobs) :: SoundRead(w, runs[j].scan, t)
    {
      assert ScanStep(w, Before(runs, j), runs[j]);
      StillTreeReadsSoundly(w, runs[j].scan, runs[j].jobs);
    }
  }

  lemma RootIgnoresSize(w: World, scan: Scan, a: Fingerprint, b: Fingerprint)
    requires KeyOf(a) == KeyOf(b) && a.contentHash == b.contentHash
    ensures OwnRoot(w, scan, a) == OwnRoot(w, scan, b)
  {
  }

  lemma ColdIsExtracted(w: World, scan: Scan, fp: Fingerprint)
    requires Cold(w, scan, fp).Ok?
    ensures ExtractedAt(w, Cold(w, scan, fp).value.slot.batch, OwnRoot(w, scan, fp))
  {
  }

  /** A reused batch has its origin in an earlier scan of the history. */
  lemma ReusedIsServed(w: World, runs: seq<ScanRun>, i: nat, fp: Fingerprint) returns (j: nat, t: Task)
    requires History(w, runs) && i < |runs|
    requires fp in Focused(runs[i].scan.fingerprints) && Reusable(runs[i].scan, fp).Some?
    ensures Serves(runs, j, t, i, fp) && Extracts(w, runs[j], t, Reusable(runs[i].scan, fp).value.0)
  {
    hide Read, Focused, AllTasks, Planned;
    HistoryIsBorn(w, runs, i);
    assert ScanStep(w, Before(runs, i), runs[i]);
    var batch := Reusable(runs[i].scan, fp).value.0;
    assert batch in Before(runs, i).published || batch in Before(runs, i).checkpoints;
    assert Born(w, runs, i, batch);
    j, t :| 0 <= j < i && Extracts(w, runs[j], t, batch);
  }

  /** With kept crate roots and sound reads, everything is sound if and only if sizes were kept. */
  lemma KeptRootsLeaveTheSize(w: World, runs: seq<ScanRun>, i: nat)
    requires History(w, runs) && i < |runs| && RootsKept(w, runs, i) && ReadsSound(w, runs, i)
    ensures AllSound(w, runs[i].scan, AllTasks(runs[i].jobs)) <==> SizesKept(runs[i].scan)
  {
    hide ExtractedAt, OwnRoot, Focused, AllTasks, Reusable, Planned;
    var scan := runs[i].scan;
    assert ScanStep(w, Before(runs, i), runs[i]);
    PlannedIsGood(scan, runs[i].jobs);
    forall fp | fp in Focused(scan.fingerprints) && Reusable(scan, fp).Some?
      ensures ExtractedAt(w, Reusable(scan, fp).value.0, OwnRoot(w, scan, fp))
    {
      OriginIsExtracted(w, runs, i, fp);
    }
    var tasks, fps := AllTasks(runs[i].jobs), Focused(scan.fingerprints);
    assert forall k :: 0 <= k < |tasks| ==> fps[k] == tasks[k].artifact;
    assert forall t <- tasks :: t.artifact in fps;
    forall fp | fp in fps
      ensures exists t <- tasks :: t.artifact == fp
    {
      var k :| 0 <= k < |fps| && fps[k] == fp;
      assert tasks[k] in tasks;
    }
  }

  lemma OriginIsExtracted(w: World, runs: seq<ScanRun>, i: nat, fp: Fingerprint)
    requires History(w, runs) && i < |runs| && RootsKept(w, runs, i) && ReadsSound(w, runs, i)
    requires fp in Focused(runs[i].scan.fingerprints) && Reusable(runs[i].scan, fp).Some?
    ensures ExtractedAt(w, Reusable(runs[i].scan, fp).value.0, OwnRoot(w, runs[i].scan, fp))
  {
    hide ExtractedAt, OwnRoot, Focused, AllTasks, Reusable, History, Read, Cold;
    var j, t := ReusedIsServed(w, runs, i, fp);
    assert SoundRead(w, runs[j].scan, t);
    ColdIsExtracted(w, runs[j].scan, t.artifact);
    RootIgnoresSize(w, runs[j].scan, t.artifact, fp);
  }

  /**
   From empty caches on, in any history of full and partial scans, every scan gives the answers of
   its artifacts. Where reads were sound and crate roots kept, it gives the cold scan's result if the
   sizes were kept too, and a successful scan shows the cold result only then.
   */
  lemma EveryScanOfAHistoryLooksCold(w: World, runs: seq<ScanRun>, i: nat)
    requires CodecInverts(w) && History(w, runs) && i < |runs|
    requires RootsKept(w, runs, i) && ReadsSound(w, runs, i)
    ensures var run := runs[i];
            && ClaimsOnce(run.scan, Merged(run.observed))
            && var r := AssembledFrom(run.scan, run.observed);
               && (SizesKept(run.scan) ==> GivesCold(w, run.scan, r))
               && (r.Ok? ==> (LooksCold(w, run.scan, r.value) <==> SizesKept(run.scan)))
  {
    hide LooksCold, AssembledFrom, FirstColdError, FirstWarmError, Focused, Merged, SizesKept, RootsKept,
         AllSound, LooksWarm, ReadsSound, AllTasks, Planned, StrictlySorted;
    KeptRootsLeaveTheSize(w, runs, i);
    assert ScanStep(w, Before(runs, i), runs[i]);
    WarmEqualsCold(w, runs[i].scan, runs[i].jobs, runs[i].observed);
  }

  /** In a history reuse never fails, whatever moved, grew or was read. */
  lemma ReuseNeverFails(w: World, runs: seq<ScanRun>, i: nat, t: Task)
    requires CodecInverts(w) && History(w, runs) && i < |runs|
    requires t.artifact in Focused(runs[i].scan.fingerprints) && Reusable(runs[i].scan, t.artifact).Some?
    ensures Warm(w, runs[i].scan, t).Ok?
  {
    hide ExtractArtifact, RootAt, Focused, Decoded, AllTasks, CheckoutPaths, History;
    var j, u := ReusedIsServed(w, runs, i, t.artifact);
    var scan := runs[j].scan;
    var checkout := CheckoutPaths(scan.records)[u.lead.repo];
    var content := scan.tree.read(checkout, u.lead.path, u.lead.extractor).value;
    ExtractedBatchDecodes(w, scan.budget, content, RootAt(w, scan.tree, checkout, content, u.artifact),
                          u.artifact, Reusable(runs[i].scan, t.artifact).value.1);
  }
}
