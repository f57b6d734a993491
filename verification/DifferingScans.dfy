/**
 Inputs on which a warm scan differs from a cold one, each a run of the model: a moved crate root, a
 size recorded too early, a file edited before it was read again, two checkouts of one repository,
 and a batch without outputs.
 */
module DifferingScans {
  import opened Basics
  import opened Artifacts
  import opened Extractors
  import opened FocusedExtraction
  import opened FocusedAssembly
  import opened WarmScans
  import opened ScanHistories
  import Fence = FailureFence

  // ---------------------------------------------------------------- scans of one artifact

  function OneJob(scan: Scan, fp: Fingerprint): Job
    requires fp.repo in CheckoutPaths(scan.records)
  {
    match Reusable(scan, fp)
    case Some(reuse) => Reuse(fp, reuse.0, reuse.1)
    case None => Extract(CheckoutPaths(scan.records)[fp.repo], [fp])
  }

  /** The scan's only job and its result. */
  function OneRun(w: World, scan: Scan, fp: Fingerprint, after: Caches): ScanRun
    requires fp.repo in CheckoutPaths(scan.records)
  {
    ScanRun(scan, [OneJob(scan, fp)], [Some(RunJob(w, scan, OneJob(scan, fp)))], after)
  }

  ghost predicate OneArtifact(scan: Scan, fp: Fingerprint) {
    && scan.fingerprints == [fp] && IsFocused(fp.extractor)
    && fp.repo in CheckoutPaths(scan.records)
  }

  lemma OneFocused(fp: Fingerprint)
    requires IsFocused(fp.extractor)
    ensures Focused([fp]) == [fp]
  {
    assert [fp][..0] == [];
  }

  lemma OnePlanned(scan: Scan, fp: Fingerprint)
    requires OneArtifact(scan, fp)
    ensures Planned(scan, scan.fingerprints, [OneJob(scan, fp)])
  {
    hide Reusable;
    var job := OneJob(scan, fp);
    OneFocused(fp);
    assert [job][1..] == [];
    assert AllAnswers([job]) == [fp];
    assert GoodJob(scan, job);
  }

  lemma OneFenced(w: World, scan: Scan, job: Job)
    ensures Fence.Fenced(Runs(w, scan, [job]), [Some(RunJob(w, scan, job))])
  {
    hide RunJob;
    assert Runs(w, scan, [job]) == [RunJob(w, scan, job)];
  }

  /** A scan of one file in a checkout of its own. */
  function OneFile(
    fp: Fingerprint, previous: seq<StoredBatch>, budget: Text, home: Text, content: Text, root: Text): Scan
  {
    Scan([fp], previous, [], {}, [Record(fp.repo, fp.checkout, home)], budget,
         Tree((_, _, _) => Ok(content), (_, _) => root))
  }

  lemma OneFilePaths(fp: Fingerprint, home: Text)
    ensures var records := [Record(fp.repo, fp.checkout, home)];
            && fp.repo in CheckoutPaths(records) && CheckoutPaths(records)[fp.repo] == home
            && HomePath(records, fp.checkout) == Some(home)
  {
    var records := [Record(fp.repo, fp.checkout, home)];
    assert records[..0] == [];
  }

  lemma OneFileIsScanned(
    fp: Fingerprint, previous: seq<StoredBatch>, budget: Text, home: Text, content: Text, root: Text)
    requires IsFocused(fp.extractor)
    ensures var scan := OneFile(fp, previous, budget, home, content, root);
            OneArtifact(scan, fp) && OwnCheckouts(scan)
  {
    hide Reusable, IsFocused;
    OneFocused(fp);
    OneFilePaths(fp, home);
  }

  /** A file that still has the content it was hashed with is a still tree. */
  lemma OneFileHolds(
    w: World, fp: Fingerprint, previous: seq<StoredBatch>, budget: Text, home: Text, root: Text)
    requires IsFocused(fp.extractor)
    ensures StillTree(w, OneFile(fp, previous, budget, home, w.contentOf(fp.contentHash), root))
  {
    hide Reusable, IsFocused;
    OneFocused(fp);
    OneFilePaths(fp, home);
  }

  lemma OneTask(scan: Scan, fp: Fingerprint)
    requires fp.repo in CheckoutPaths(scan.records)
    ensures AllTasks([OneJob(scan, fp)]) == [Task(fp, fp)]
  {
    hide Reusable;
    var job := OneJob(scan, fp);
    assert [job][..0] == [];
    assert Tasks(job) == [Task(fp, fp)];
  }

  /** A scan of one artifact that has an answer shows it. */
  lemma OneAnswer(w: World, scan: Scan, fp: Fingerprint, after: Caches)
    requires CodecInverts(w) && OneArtifact(scan, fp) && Warm(w, scan, Task(fp, fp)).Ok?
    ensures var run := OneRun(w, scan, fp, after);
            && ClaimsOnce(scan, Merged(run.observed))
            && AssembledFrom(scan, run.observed).Ok?
            && var a := AssembledFrom(scan, run.observed).value;
               && a.stored == [Resolve(scan, Warm(w, scan, Task(fp, fp)).value.slot)]
               && a.outputs == WarmOutputs(w, scan, [Task(fp, fp)])
               && (LooksCold(w, scan, a) <==> Sound(w, scan, Task(fp, fp)))
  {
    hide Warm, AssembledFrom, Merged, RunJob, LooksCold, Sound, Planned, Reusable, AllTasks, Focused;
    var run, t := OneRun(w, scan, fp, after), Task(fp, fp);
    OneFocused(fp);
    OnePlanned(scan, fp);
    OneTask(scan, fp);
    OneFenced(w, scan, OneJob(scan, fp));
    assert [t][1..] == [];
    assert FirstWarmError(w, scan, [t]) == None;
    WarmEqualsCold(w, scan, run.jobs, run.observed);
    var a := AssembledFrom(scan, run.observed).value;
    assert a.stored[0] == Resolve(scan, Warm(w, scan, [t][0]).value.slot);
    assert AllSound(w, scan, [t]) <==> Sound(w, scan, t);
  }

  /** A run of one artifact is a step of a history. */
  lemma OneStep(w: World, before: Caches, scan: Scan, fp: Fingerprint, after: Caches)
    requires CodecInverts(w) && OneArtifact(scan, fp)
    requires Warm(w, scan, Task(fp, fp)).Ok? && scan.checkpointed == []
    requires forall b <- scan.previous :: b in before.published
    requires after == Caches({Resolve(scan, Warm(w, scan, Task(fp, fp)).value.slot)}, {})
    ensures ScanStep(w, before, OneRun(w, scan, fp, after))
  {
    hide Warm, AssembledFrom, Merged, RunJob, Sound, Planned, Reusable;
    var run := OneRun(w, scan, fp, after);
    OnePlanned(scan, fp);
    OneFenced(w, scan, OneJob(scan, fp));
    OneAnswer(w, scan, fp, after);
    assert Elements([Resolve(scan, Warm(w, scan, Task(fp, fp)).value.slot)]) == after.published;
  }

  lemma NothingToReuse(scan: Scan, fp: Fingerprint)
    requires scan.previous == [] && scan.checkpointed == []
    ensures Reusable(scan, fp) == None
  {
  }

  lemma PublishedIsReused(scan: Scan, fp: Fingerprint, batch: StoredBatch)
    requires scan.previous == [batch] && scan.checkpointed == [] && scan.changed == {}
    requires KeyOf(batch.source) == KeyOf(fp) && Matches(scan, batch, fp)
    ensures Reusable(scan, fp) == Some((batch, Previous(0)))
  {
    assert IsLast(scan.previous, 0, KeyOf(fp));
    assert Offers(scan, scan.previous, fp);
  }

  // ---------------------------------------------------------------- the two-scan histories

  /**
   A first scan reads some content for `earlier` at one crate root; a second one meets `fp`, which
   has the same key and hash, in a still tree at another root, and uses the batch of the first.
   */
  lemma ScanTwice(
    w: World, budget: Text, home: Text, earlier: Fingerprint, content: Text, root: Text,
    fp: Fingerprint, moved: Text)
    returns (runs: seq<ScanRun>, a: Assembly)
    requires CodecInverts(w) && IsFocused(fp.extractor)
    requires KeyOf(earlier) == KeyOf(fp) && earlier.contentHash == fp.contentHash
    requires Read(w, OneFile(earlier, [], budget, home, content, root), Task(earlier, earlier)).Ok?
    ensures History(w, runs) && |runs| == 2
    ensures var first := OneFile(earlier, [], budget, home, content, root);
            var batch := Read(w, first, Task(earlier, earlier)).value.slot.batch;
            && runs[0].scan == first
            && runs[1].scan == OneFile(fp, [batch], budget, home, w.contentOf(fp.contentHash), moved)
            && AllTasks(runs[0].jobs) == [Task(earlier, earlier)] && AllTasks(runs[1].jobs) == [Task(fp, fp)]
            && Reusable(runs[1].scan, fp) == Some((batch, Previous(0)))
            && Returned(runs[1], a)
            && a.outputs == WarmOutputs(w, runs[1].scan, [Task(fp, fp)])
            && (LooksCold(w, runs[1].scan, a) <==> SoundReuse(w, runs[1].scan, fp))
  {
    hide ExtractArtifact, Reusable, AssembledFrom, Merged, RunJob, LooksCold, SoundReuse, Decoded, IsFocused,
         ScanStep, OwnCheckouts, AllTasks, CheckoutPaths, RootAt, Planned;
    var first := OneFile(earlier, [], budget, home, content, root);
    OneFileIsScanned(earlier, [], budget, home, content, root);
    NothingToReuse(first, earlier);
    OneFilePaths(earlier, home);
    var batch := Read(w, first, Task(earlier, earlier)).value.slot.batch;
    var after := Caches({batch}, {});
    OneStep(w, Caches({}, {}), first, earlier, after);
    var second := OneFile(fp, [batch], budget, home, w.contentOf(fp.contentHash), moved);
    OneFileIsScanned(fp, [batch], budget, home, w.contentOf(fp.contentHash), moved);
    PublishedIsReused(second, fp, batch);
    ExtractedBatchDecodes(w, budget, content, RootAt(w, first.tree, home, content, earlier), earlier,
                          Previous(0));
    OneAnswer(w, second, fp, after);
    OneStep(w, after, second, fp, after);
    OneTask(first, earlier);
    OneTask(second, fp);
    runs := [OneRun(w, first, earlier, after), OneRun(w, second, fp, after)];
    assert ScanStep(w, Before(runs, 0), runs[0]) && ScanStep(w, Before(runs, 1), runs[1]);
    a := AssembledFrom(second, runs[1].observed).value;
  }

  lemma OneFileRoot(
    w: World, fp: Fingerprint, previous: seq<StoredBatch>, budget: Text, home: Text, content: Text,
    root: Text)
    ensures OwnRoot(w, OneFile(fp, previous, budget, home, content, root), fp)
            == if fp.extractor == DATA_SOURCE && w.needsRoot(w.contentOf(fp.contentHash), fp.path) then root
               else []
  {
    OneFilePaths(fp, home);
  }

  /** In a still tree the read of a one-file scan is the cold extraction. */
  lemma OneFileReadsCold(w: World, fp: Fingerprint, budget: Text, home: Text, root: Text)
    ensures var scan := OneFile(fp, [], budget, home, w.contentOf(fp.contentHash), root);
            Read(w, scan, Task(fp, fp)) == Cold(w, scan, fp)
  {
    hide ExtractArtifact;
    OneFilePaths(fp, home);
  }

  /** Two scans of one file that still has the hashed content read soundly. */
  lemma TwoStillScans(
    w: World, runs: seq<ScanRun>, earlier: Fingerprint, fp: Fingerprint, previous: seq<StoredBatch>,
    budget: Text, home: Text, root: Text, moved: Text)
    requires History(w, runs) && |runs| == 2 && IsFocused(fp.extractor)
    requires KeyOf(earlier) == KeyOf(fp) && earlier.contentHash == fp.contentHash
    requires var content := w.contentOf(fp.contentHash);
             && runs[0].scan == OneFile(earlier, [], budget, home, content, root)
             && runs[1].scan == OneFile(fp, previous, budget, home, content, moved)
    ensures ReadsSound(w, runs, 1)
  {
    hide StillTree, OwnCheckouts, History, ReadsSound, IsFocused, OneArtifact;
    OneFileHolds(w, earlier, [], budget, home, root);
    OneFileHolds(w, fp, previous, budget, home, moved);
    OneFileIsScanned(earlier, [], budget, home, w.contentOf(fp.contentHash), root);
    OneFileIsScanned(fp, previous, budget, home, w.contentOf(fp.contentHash), moved);
    StillTreesReadSoundly(w, runs, 1);
  }

  lemma DataSourceIsFocused()
    ensures IsFocused(DATA_SOURCE)
  {
    SourceScanKinds();
  }

  /** Reuse of a batch that the current root does not give is not sound. */
  lemma OtherRootIsUnsound(
    w: World, fp: Fingerprint, batch: StoredBatch, scan: Scan, budget: Text, home: Text, content: Text,
    moved: Text)
    requires scan == OneFile(fp, [batch], budget, home, content, moved)
    requires Reusable(scan, fp) == Some((batch, Previous(0))) && !ExtractedAt(w, batch, OwnRoot(w, scan, fp))
    ensures !SoundReuse(w, scan, fp)
  {
    hide Reusable, ExtractedAt, OwnRoot;
  }

  lemma OneSizeKept(scan: Scan, fp: Fingerprint, batch: StoredBatch)
    requires Focused(scan.fingerprints) == [fp] && Reusable(scan, fp) == Some((batch, Previous(0)))
    requires batch.source.size == fp.size
    ensures SizesKept(scan)
  {
    hide Reusable, Focused;
  }

  /**
   A `Cargo.toml` that appears or goes between two scans moves the crate root of a Rust source that
   mentions a database crate. Hash, key, version and budget still match, so the old batch is used,
   and the second scan differs from a cold one whenever the parser tells the roots apart.
   */
  lemma MovedCrateRoot(w: World, budget: Text, home: Text, fp: Fingerprint, root: Text, moved: Text)
    requires CodecInverts(w) && fp.extractor == DATA_SOURCE
    requires w.needsRoot(w.contentOf(fp.contentHash), fp.path)
    requires var r := ExtractArtifact(w, budget, w.contentOf(fp.contentHash), root, fp);
             r.Ok? && !ExtractedAt(w, r.value.slot.batch, moved)
    ensures exists runs: seq<ScanRun>, a: Assembly ::
              && History(w, runs) && |runs| == 2 && SizesKept(runs[1].scan) && ReadsSound(w, runs, 1)
              && Returned(runs[1], a) && !LooksCold(w, runs[1].scan, a)
  {
    DataSourceIsFocused();
    hide ExtractArtifact, Reusable, LooksCold, History, ExtractedAt, OwnRoot, IsFocused, KindOf, Read, Returned,
         StillTree, OwnCheckouts, ReadsSound, SizesKept, SoundReuse, Focused, AllTasks, WarmOutputs;
    var content := w.contentOf(fp.contentHash);
    OneFileRoot(w, fp, [], budget, home, content, root);
    OneFileReadsCold(w, fp, budget, home, root);
    var runs, a := ScanTwice(w, budget, home, fp, content, root, fp, moved);
    var second := runs[1].scan;
    var batch := second.previous[0];
    OneFileRoot(w, fp, [batch], budget, home, content, moved);
    TwoStillScans(w, runs, fp, fp, [batch], budget, home, root, moved);
    OneFocused(fp);
    OtherRootIsUnsound(w, fp, batch, second, budget, home, content, moved);
    OneSizeKept(second, fp, batch);
  }

  /** Crate roots of a two-scan history of one artifact. */
  lemma TwoRootsKept(w: World, runs: seq<ScanRun>, fp: Fingerprint)
    requires |runs| == 2 && runs[1].scan.fingerprints == [fp] && Focused([fp]) == [fp]
    requires OwnRoot(w, runs[0].scan, fp) == OwnRoot(w, runs[1].scan, fp)
    ensures RootsKept(w, runs, 1)
  {
    hide OwnRoot, Reusable, AllTasks, Focused;
  }

  /**
   A write between the stat and the read of a file records the size of before and the hash of after.
   The next scan sees an unchanged hash and uses the batch that carries the stale size.
   */
  lemma StaleSize(w: World, budget: Text, home: Text, fp: Fingerprint, root: Text, size: nat)
    requires CodecInverts(w) && IsFocused(fp.extractor) && size != fp.size
    requires Cold(w, OneFile(fp.(size := size), [], budget, home, w.contentOf(fp.contentHash), root),
                  fp.(size := size)).Ok?
    ensures exists runs: seq<ScanRun>, a: Assembly ::
              && History(w, runs) && |runs| == 2 && RootsKept(w, runs, 1) && ReadsSound(w, runs, 1)
              && Returned(runs[1], a) && !LooksCold(w, runs[1].scan, a)
  {
    hide ExtractArtifact, Reusable, LooksCold, History, ExtractedAt, Cold, IsFocused, Read, Returned, StillTree,
         OwnCheckouts, ReadsSound, RootsKept;
    var earlier, content := fp.(size := size), w.contentOf(fp.contentHash);
    OneFileReadsCold(w, earlier, budget, home, root);
    var runs, a := ScanTwice(w, budget, home, earlier, content, root, fp, root);
    var second := runs[1].scan;
    OneFocused(fp);
    TwoStillScans(w, runs, earlier, fp, second.previous, budget, home, root, root);
    assert !SoundReuse(w, second, fp);
    assert OwnRoot(w, runs[0].scan, fp) == OwnRoot(w, second, fp);
    TwoRootsKept(w, runs, fp);
  }

  /**
   Extraction reads the file again and does not check the hash. After a write between fingerprinting
   and that read, what was written is stored under the old hash; when the file is back, the next scan
   uses that batch, although its own tree holds still and roots and sizes were kept.
   */
  lemma EditedBeforeTheRead(
    w: World, budget: Text, home: Text, fp: Fingerprint, written: Text, root: Text)
    requires CodecInverts(w) && IsFocused(fp.extractor)
    requires var r := Read(w, OneFile(fp, [], budget, home, written, root), Task(fp, fp));
             && r.Ok?
             && !ExtractedAt(w, r.value.slot.batch,
                             OwnRoot(w, OneFile(fp, [], budget, home, written, root), fp))
    ensures exists runs: seq<ScanRun>, a: Assembly ::
              && History(w, runs) && |runs| == 2 && RootsKept(w, runs, 1) && SizesKept(runs[1].scan)
              && StillTree(w, runs[1].scan) && OwnCheckouts(runs[1].scan)
              && Returned(runs[1], a) && !LooksCold(w, runs[1].scan, a)
  {
    hide ExtractArtifact, Reusable, LooksCold, History, ExtractedAt, IsFocused, Read, Returned, StillTree,
         OwnCheckouts, RootsKept, OwnRoot;
    var content := w.contentOf(fp.contentHash);
    var runs, a := ScanTwice(w, budget, home, fp, written, root, fp, root);
    var second := runs[1].scan;
    OneFocused(fp);
    OneFileRoot(w, fp, [], budget, home, written, root);
    OneFileRoot(w, fp, second.previous, budget, home, content, root);
    OneFileHolds(w, fp, second.previous, budget, home, root);
    OneFileIsScanned(fp, second.previous, budget, home, content, root);
    TwoRootsKept(w, runs, fp);
    assert !SoundReuse(w, second, fp);
    assert SizesKept(second);
  }

  // ---------------------------------------------------------------- two checkouts, one repository

  /** Two aliases that share a repository id; the later one is found by that id. */
  function Worktrees(
    fp: Fingerprint, home: Text, other: Text, elsewhere: Text, budget: Text, tree: Tree): Scan
  {
    Scan([fp], [], [], {}, [Record(fp.repo, fp.checkout, home), Record(fp.repo, other, elsewhere)],
         budget, tree)
  }

  lemma WorktreePaths(fp: Fingerprint, home: Text, other: Text, elsewhere: Text)
    requires other != fp.checkout
    ensures var records := [Record(fp.repo, fp.checkout, home), Record(fp.repo, other, elsewhere)];
            && fp.repo in CheckoutPaths(records) && CheckoutPaths(records)[fp.repo] == elsewhere
            && HomePath(records, fp.checkout) == Some(home)
  {
    var records := [Record(fp.repo, fp.checkout, home), Record(fp.repo, other, elsewhere)];
    assert records[..1] == [Record(fp.repo, fp.checkout, home)];
    assert records[..1][..0] == [];
  }

  /** What one job that extracts one artifact assembles to. */
  lemma OneFreshAssembly(scan: Scan, o: Outcome)
    requires o.slot.Fresh?
    ensures var observed: seq<Option<JobResult>> := [Some(Ok([o]))];
            && Merged(observed) == [o]
            && AssembledFrom(scan, observed).Ok?
            && AssembledFrom(scan, observed).value.stored == [o.slot.batch]
  {
    var observed: seq<Option<JobResult>> := [Some(Ok([o]))];
    assert observed[..0] == [] && observed[1..] == [];
    assert Fence.FirstError(observed[1..]) == None;
    assert Fence.FirstError(observed) == None;
    assert Merged(observed) == [o];
    assert StoredOf(scan, [o]) == [(o.slot.batch, false)];
    SortOfSorted(PairKey, StoredOf(scan, [o]));
  }

  /** The scan is one the code accepts: its tree holds still, and its plan reads elsewhere. */
  lemma WorktreeScan(
    w: World, fp: Fingerprint, home: Text, other: Text, elsewhere: Text, budget: Text, tree: Tree)
    requires IsFocused(fp.extractor) && other != fp.checkout && elsewhere != home
    requires forall extractor :: tree.read(home, fp.path, extractor) == Ok(w.contentOf(fp.contentHash))
    ensures var scan := Worktrees(fp, home, other, elsewhere, budget, tree);
            && StillTree(w, scan) && !OwnCheckouts(scan)
            && Planned(scan, scan.fingerprints, [Extract(elsewhere, [fp])])
  {
    var scan := Worktrees(fp, home, other, elsewhere, budget, tree);
    WorktreePaths(fp, home, other, elsewhere);
    NothingToReuse(scan, fp);
    OneFocused(fp);
    hide Reusable, CheckoutPaths, HomePath, IsFocused, Planned;
    assert OneJob(scan, fp) == Extract(elsewhere, [fp]);
    OnePlanned(scan, fp);
    assert !ReadsOwnCheckout(scan, fp) && fp in [fp];
  }

  /** What the other checkout holds, extracted for the artifact. */
  function FromElsewhere(w: World, scan: Scan, elsewhere: Text, fp: Fingerprint): Result<Outcome, Error> {
    match scan.tree.read(elsewhere, fp.path, fp.extractor)
    case Err(e) => Err(e)
    case Ok(content) =>
      ExtractArtifact(w, scan.budget, content, RootAt(w, scan.tree, elsewhere, content, fp), fp)
  }

  /**
   Linked worktrees and clones of one remote share a repository id, and the checkout to read from is
   found by that id. An artifact of the earlier alias is read from the other checkout, although its
   own file holds still: the scan fails if the file is missing there, and otherwise stores under the
   artifact's hash what the other checkout holds.
   */
  lemma LinkedWorktreeReadsTheOther(
    w: World, fp: Fingerprint, home: Text, other: Text, elsewhere: Text, budget: Text, tree: Tree)
    requires IsFocused(fp.extractor) && other != fp.checkout && elsewhere != home
    requires forall extractor :: tree.read(home, fp.path, extractor) == Ok(w.contentOf(fp.contentHash))
    ensures var scan := Worktrees(fp, home, other, elsewhere, budget, tree);
            var job := Extract(elsewhere, [fp]);
            var run := ScanRun(scan, [job], [Some(RunJob(w, scan, job))], Caches({}, {}));
            && StillTree(w, scan) && !OwnCheckouts(scan)
            && Planned(scan, scan.fingerprints, run.jobs)
            && Fence.Fenced(Runs(w, scan, run.jobs), run.observed)
            && StoresElsewhere(w, run, elsewhere, fp)
  {
    hide Planned, StillTree, OwnCheckouts, IsFocused, StoresElsewhere, Runs, RunJob;
    var scan := Worktrees(fp, home, other, elsewhere, budget, tree);
    var job := Extract(elsewhere, [fp]);
    WorktreeScan(w, fp, home, other, elsewhere, budget, tree);
    OneFenced(w, scan, job);
    OneFocused(fp);
    ElsewhereIsStored(w, scan, elsewhere, fp);
  }

  /** The run fails or stores as the other checkout has it; if that is not the cold batch, it shows. */
  ghost predicate StoresElsewhere(w: World, run: ScanRun, elsewhere: Text, fp: Fingerprint) {
    match FromElsewhere(w, run.scan, elsewhere, fp)
    case Err(e) => Failed(run, e)
    case Ok(o) =>
      exists a :: && Returned(run, a) && a.stored == [o.slot.batch]
                  && (Cold(w, run.scan, fp).Err? || Cold(w, run.scan, fp).value.slot.batch != o.slot.batch
                      ==> !LooksCold(w, run.scan, a))
  }

  lemma ElsewhereIsStored(w: World, scan: Scan, elsewhere: Text, fp: Fingerprint)
    requires Focused(scan.fingerprints) == [fp]
    ensures var job := Extract(elsewhere, [fp]);
            StoresElsewhere(
              w, ScanRun(scan, [job], [Some(RunJob(w, scan, job))], Caches({}, {})), elsewhere, fp)
  {
    var job := Extract(elsewhere, [fp]);
    OneExtraction(w, scan, job, fp);
    hide RunJob, Cold, ExtractArtifact, RootAt, Focused, LooksCold, AssembledFrom, Merged;
    match FromElsewhere(w, scan, elsewhere, fp) {
      case Err(e) =>
        OneFailure(scan, e);
      case Ok(o) =>
        var a := ReturnsFresh(scan, job, o);
        if Cold(w, scan, fp).Err? || Cold(w, scan, fp).value.slot.batch != o.slot.batch {
          NotTheColdBatch(w, scan, fp, a);
        }
    }
  }

  lemma ReturnsFresh(scan: Scan, job: Job, o: Outcome) returns (a: Assembly)
    requires o.slot.Fresh?
    ensures Returned(ScanRun(scan, [job], [Some(Ok([o]))], Caches({}, {})), a) && a.stored == [o.slot.batch]
  {
    OneFreshAssembly(scan, o);
    hide AssembledFrom, Merged;
    a := AssembledFrom(scan, [Some(Ok([o]))]).value;
  }

  lemma NotTheColdBatch(w: World, scan: Scan, fp: Fingerprint, a: Assembly)
    requires Focused(scan.fingerprints) == [fp] && |a.stored| == 1
    requires Cold(w, scan, fp).Err? || Cold(w, scan, fp).value.slot.batch != a.stored[0]
    ensures !LooksCold(w, scan, a)
  {
    hide Cold, WithDocuments, ColdOutputs, ColdNotes, AllStoredNotes, ReusesEmptyBatch, Focused;
    assert Focused(scan.fingerprints)[0] == fp;
  }

  lemma OneExtraction(w: World, scan: Scan, job: Job, fp: Fingerprint)
    requires job.Extract? && job.group == [fp]
    ensures RunJob(w, scan, job) ==
            match FromElsewhere(w, scan, job.checkout, fp) case Err(e) => Err(e) case Ok(o) => Ok([o])
  {
    hide ExtractArtifact, RootAt;
    assert [fp][1..] == [];
    var read := scan.tree.read(job.checkout, fp.path, fp.extractor);
    if read.Ok? {
      var content := read.value;
      var root := RootAt(w, scan.tree, job.checkout, content, fp);
      var first := ExtractArtifact(w, scan.budget, content, root, fp);
      assert ExtractGroup(w, scan, job.checkout, content, []) == Ok([]);
      if first.Ok? {
        assert [first.value] + [] == [first.value];
      }
    }
  }

  lemma OneFailure(scan: Scan, e: Error)
    ensures var observed: seq<Option<JobResult>> := [Some(Err(e))];
            && Merged(observed) == [] && AssembledFrom(scan, observed) == Err(e)
  {
    var observed: seq<Option<JobResult>> := [Some(Err(e))];
    assert observed[..0] == [];
  }

  // ---------------------------------------------------------------- a batch without outputs

  /** A source file without observations, published and then reused, loses its empty output. */
  lemma SourceFileWithoutObservations(w: World, budget: Text, home: Text, fp: Fingerprint)
    requires CodecInverts(w) && KindOf(fp.extractor) == SourceKind
    requires w.parse(budget, w.contentOf(fp.contentHash), [], fp.path, fp.extractor) == Ok([])
    requires w.maxPayload(budget) >= 2
    ensures exists runs: seq<ScanRun>, a: Assembly ::
              && History(w, runs) && |runs| == 2 && AllSound(w, runs[1].scan, AllTasks(runs[1].jobs))
              && Returned(runs[1], a) && LooksCold(w, runs[1].scan, a) && a.outputs == []
              && ColdOutputs(w, runs[1].scan, Focused(runs[1].scan.fingerprints))
                 == [Output(SourceKind, fp, [])]
  {
    SourceIsNotData(fp.extractor);
    var content := w.contentOf(fp.contentHash);
    OneFileRoot(w, fp, [], budget, home, content, []);
    OneFileReadsCold(w, fp, budget, home, []);
    EmptyExtraction(w, budget, content, fp);
    hide ExtractArtifact, Reusable, LooksCold, History, OwnRoot, KindOf, IsFocused, Read;
    var runs, a := ScanTwice(w, budget, home, fp, content, [], fp, []);
    hide Returned;
    var second := runs[1].scan;
    OneFileRoot(w, fp, second.previous, budget, home, content, []);
    OneFocused(fp);
    assert Cold(w, second, fp) == ExtractArtifact(w, budget, content, [], fp);
    ReuseIsColdIffSound(w, second, fp);
    SoundReuseAnswers(w, second, fp);
    OneOutput(w, second, fp);
  }

  lemma OneOutput(w: World, scan: Scan, fp: Fingerprint)
    requires Cold(w, scan, fp).Ok? && Warm(w, scan, Task(fp, fp)).Ok?
    ensures var cold, warm := Cold(w, scan, fp).value.output, Warm(w, scan, Task(fp, fp)).value.output;
            && ColdOutputs(w, scan, [fp]) == (if cold.Some? then [cold.value] else [])
            && WarmOutputs(w, scan, [Task(fp, fp)]) == (if warm.Some? then [warm.value] else [])
  {
    hide Cold, Warm;
    assert [fp][..0] == [] && [Task(fp, fp)][..0] == [];
  }

  lemma SourceIsNotData(extractor: Text)
    requires KindOf(extractor) == SourceKind
    ensures extractor != DATA_SOURCE && IsFocused(extractor)
    ensures extractor !in {GRAPHQL_SOURCE, EVENTS_SOURCE, PROTOBUF_GENERATED, DATA_SOURCE}
  {
    SourceScanKinds();
  }

  lemma EmptyExtraction(w: World, budget: Text, content: Text, fp: Fingerprint)
    requires CodecInverts(w) && KindOf(fp.extractor) == SourceKind && w.maxPayload(budget) >= 2
    requires w.parse(budget, content, [], fp.path, fp.extractor) == Ok([])
    ensures ExtractArtifact(w, budget, content, [], fp).Ok?
    ensures ExtractArtifact(w, budget, content, [], fp).value.output == Some(Output(SourceKind, fp, []))
  {
    hide KindOf;
  }
}
