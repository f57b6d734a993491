/**
 The early return of a scan whose snapshot id is the published one, compared with the scan it
 replaces: the plan is empty, every focused artifact is reusable, and the stored degradations are
 the ones the scan would report.
 */
module SnapshotReuse {
  import opened Basics
  import opened Artifacts
  import opened Extractors
  import opened FocusedExtraction
  import opened FocusedAssembly
  import opened WarmScans
  import opened ArtifactDelta
  import opened ArtifactStore
  import opened PublicationHistory
  import Identity = SnapshotIdentity
  import Degradations
  import Fence = FailureFence

  /** What the last publication left: the tables of its assembly. */
  ghost predicate LastPublished(before: Tables, run: PublishRun, a: Assembly) {
    && StrictlySorted(KeyOf, run.scan.fingerprints) && OneBatchEach(run.scan, a)
    && Current(before, run, a)
  }

  /** The last publication of any history of scans over the tables is one. */
  lemma HistoryLeavesLastPublished(
    w: World, lossy: Lossy, runs: seq<PublishRun>, i: nat, a: Assembly)
    requires Published(w, lossy, runs) && i < |runs| && Publishes(TablesBefore(runs, i), runs[i], a)
    ensures LastPublished(TablesBefore(runs, i), runs[i], a)
  {
    hide Publishes, Current, OneBatchEach, StrictlySorted;
    assert PublishStep(w, lossy, TablesBefore(runs, i), OfferedBefore(runs, i), runs[i]);
    EveryPublicationIsCurrent(w, lossy, runs, i, a);
  }

  // ---------------------------------------------------------------- equal ids, equal lists

  /** With displays computed from bytes, lists equal up to displays are equal. */
  lemma NativeListsAreEqual(lossy: Lossy, a: seq<Fingerprint>, b: seq<Fingerprint>)
    requires Native(lossy, a) && Native(lossy, b) && Identity.SameListButDisplays(a, b)
    ensures a == b
  {
    forall i | 0 <= i < |a|
      ensures a[i] == b[i]
    {
      assert a[i] in a && b[i] in b;
      assert Identity.SameButDisplay(a[i], b[i]);
    }
  }

  /** Everything the id was computed from fits its frames. */
  predicate Framed(manifest: Text, scan: Scan) {
    && |manifest| < Identity.LIMIT && |scan.budget| < Identity.LIMIT
    && forall fp <- scan.fingerprints :: Identity.Representable(fp)
  }

  function Id(hash: Text -> Text, manifest: Text, scan: Scan): Text {
    hash(Identity.Stream(manifest, scan.budget, scan.fingerprints))
  }

  lemma EqualIdsMeanEqualScans(
    hash: Text -> Text, lossy: Lossy, manifest: Text, scan: Scan, manifest': Text, scan': Scan)
    requires forall x, y :: hash(x) == hash(y) ==> x == y
    requires Framed(manifest, scan) && Framed(manifest', scan')
    requires Native(lossy, scan.fingerprints) && Native(lossy, scan'.fingerprints)
    requires Id(hash, manifest, scan) == Id(hash, manifest', scan')
    ensures manifest == manifest' && scan.budget == scan'.budget
    ensures scan.fingerprints == scan'.fingerprints
  {
    Identity.EqualIdsMeanEqualInputs(
      hash, manifest, scan.budget, scan.fingerprints, manifest', scan'.budget, scan'.fingerprints);
    NativeListsAreEqual(lossy, scan.fingerprints, scan'.fingerprints);
  }

  // ---------------------------------------------------------------- the scan it replaces

  /** The scan looks at the tables of the last publication, with the artifacts it had. */
  ghost predicate Repeats(run: PublishRun, scan: Scan) {
    && scan.fingerprints == run.scan.fingerprints && scan.budget == run.scan.budget
    && scan.changed == {} && TabulatesBatches(run.after.batches, scan.previous)
  }

  /** The kept row of a current artifact has its key and hash. */
  lemma PublishedRow(before: Tables, run: PublishRun, a: Assembly, fp: Fingerprint)
    requires LastPublished(before, run, a) && fp in run.scan.fingerprints
    ensures RowKeyOf(fp) in run.after.fingerprints
    ensures var row := run.after.fingerprints[RowKeyOf(fp)];
            KeyOf(row) == KeyOf(fp) && row.contentHash == fp.contentHash
  {
    hide OneBatchEach, StrictlySorted;
    var prev := FingerprintMap(run.previous);
    var i :| 0 <= i < |run.scan.fingerprints| && run.scan.fingerprints[i] == fp;
    var kept := KeptRows(prev, run.scan.fingerprints);
    assert kept[i] == KeptRow(prev, fp) && kept[i] in kept;
  }

  /** The plan against the published list is empty. */
  lemma RepeatedPlanIsEmpty(
    before: Tables, run: PublishRun, a: Assembly, previous: seq<Fingerprint>, c: Change)
    requires LastPublished(before, run, a) && Tabulates(run.after.fingerprints, previous)
    ensures !Changed(FingerprintMap(previous), FingerprintMap(run.scan.fingerprints), c)
  {
    hide OneBatchEach, StrictlySorted;
    var prev, cur := FingerprintMap(previous), FingerprintMap(run.scan.fingerprints);
    PreviousRow(run.after.fingerprints, previous, c.key);
    if c.key in cur {
      PublishedRow(before, run, a, cur[c.key]);
    }
    if c.key in prev {
      KeptHasCurrent(before, run, a, prev[c.key]);
    }
  }

  lemma KeptHasCurrent(before: Tables, run: PublishRun, a: Assembly, row: Fingerprint)
    requires LastPublished(before, run, a)
    requires RowKeyOf(row) in run.after.fingerprints && run.after.fingerprints[RowKeyOf(row)] == row
    ensures KeyOf(row) in FingerprintMap(run.scan.fingerprints)
  {
    hide OneBatchEach, StrictlySorted;
    var prev := FingerprintMap(run.previous);
    var kept := KeptRows(prev, run.scan.fingerprints);
    assert row in kept;
    var i :| 0 <= i < |kept| && kept[i] == row;
    assert run.scan.fingerprints[i] in run.scan.fingerprints;
  }

  /** A scan with the id of the last publication repeats it: same artifacts, an empty plan. */
  lemma EqualIdRepeats(
    hash: Text -> Text, lossy: Lossy, before: Tables, run: PublishRun, a: Assembly, manifest': Text,
    manifest: Text, scan: Scan, previous: seq<Fingerprint>, changes: seq<Change>)
    requires LastPublished(before, run, a) && (forall x, y :: hash(x) == hash(y) ==> x == y)
    requires Framed(manifest, scan) && Framed(manifest', run.scan)
    requires Native(lossy, scan.fingerprints) && Native(lossy, run.scan.fingerprints)
    requires Id(hash, manifest, scan) == Id(hash, manifest', run.scan)
    requires Tabulates(run.after.fingerprints, previous)
    requires TabulatesBatches(run.after.batches, scan.previous)
    requires forall c :: c in changes <==>
               Changed(FingerprintMap(previous), FingerprintMap(scan.fingerprints), c)
    requires scan.changed == set c | c in changes :: c.key
    ensures manifest == manifest' && changes == [] && Repeats(run, scan)
  {
    hide LastPublished, Native, Framed, Id, Tabulates, TabulatesBatches, FingerprintMap, Changed;
    EqualIdsMeanEqualScans(hash, lossy, manifest, scan, manifest', run.scan);
    assert changes != [] ==> changes[0] in changes;
    forall c
      ensures c !in changes
    {
      RepeatedPlanIsEmpty(before, run, a, previous, c);
    }
  }

  lemma StoredMatches(run: PublishRun, a: Assembly, scan: Scan, i: nat)
    requires OneBatchEach(run.scan, a) && Repeats(run, scan) && i < |a.stored|
    ensures i < |Focused(scan.fingerprints)|
    ensures var fp := Focused(scan.fingerprints)[i];
            KeyOf(a.stored[i].source) == KeyOf(fp) && Matches(scan, a.stored[i], fp)
  {
    hide Reusable, Focused;
    assert BatchFor(run.scan, Focused(scan.fingerprints)[i], a.stored[i]);
  }

  /** Every focused artifact is reusable, from the table unless a checkpoint comes first. */
  lemma EverythingIsReusable(before: Tables, run: PublishRun, a: Assembly, scan: Scan, i: nat)
    requires LastPublished(before, run, a) && Repeats(run, scan) && i < |Focused(scan.fingerprints)|
    ensures Reusable(scan, Focused(scan.fingerprints)[i]).Some?
    ensures scan.checkpointed == [] ==>
              && i < |a.stored|
              && Reusable(scan, Focused(scan.fingerprints)[i]).value.0 == a.stored[i]
              && ReusesPublished(scan, Focused(scan.fingerprints)[i])
  {
    hide LastPublished, Repeats, Focused, Reusable, Matches, TabulatesBatches;
    var fp := Focused(scan.fingerprints)[i];
    TableOffers(before, run, a, scan, i);
    RepeatsParts(run, scan);
    if scan.checkpointed == [] {
      assert !Offers(scan, scan.checkpointed, fp);
      var reuse := Reusable(scan, fp).value;
      assert reuse.0 in scan.previous;
      SameRowSameBatch(run.after.batches, scan.previous, reuse.0, a.stored[i]);
    }
  }

  lemma RepeatsParts(run: PublishRun, scan: Scan)
    requires Repeats(run, scan)
    ensures scan.changed == {} && TabulatesBatches(run.after.batches, scan.previous)
  {
  }

  lemma SameRowSameBatch(rows: BatchTable, batches: seq<StoredBatch>, x: StoredBatch, y: StoredBatch)
    requires TabulatesBatches(rows, batches) && x in batches && y in batches
    requires KeyOf(x.source) == KeyOf(y.source)
    ensures x == y
  {
    assert RowKeyOf(x.source) == RowKeyOf(y.source);
  }

  /** The table offers the stored batch of every focused artifact. */
  lemma TableOffers(before: Tables, run: PublishRun, a: Assembly, scan: Scan, i: nat)
    requires LastPublished(before, run, a) && Repeats(run, scan) && i < |Focused(scan.fingerprints)|
    ensures i < |a.stored| && a.stored[i] in scan.previous
    ensures KeyOf(a.stored[i].source) == KeyOf(Focused(scan.fingerprints)[i])
    ensures Offers(scan, scan.previous, Focused(scan.fingerprints)[i])
  {
    hide Focused, StrictlySorted, Tabulates, KeptRows, SizesAgree, FingerprintMap, Reusable, Matches;
    SameLength(run, a, scan);
    StoredMatches(run, a, scan, i);
    var b := a.stored[i];
    assert b in a.stored;
    assert run.after.batches[RowKeyOf(b.source)] == b && b in scan.previous;
    LastInTable(run.after.batches, scan.previous, b);
    var k: nat :| IsLast(scan.previous, k, KeyOf(b.source)) && scan.previous[k] == b;
  }

  lemma LastInTable(rows: BatchTable, batches: seq<StoredBatch>, b: StoredBatch)
    requires TabulatesBatches(rows, batches) && b in batches
    ensures exists k: nat :: IsLast(batches, k, KeyOf(b.source)) && batches[k] == b
  {
    var key := KeyOf(b.source);
    var k := ByKey(batches)[key];
    assert IsLast(batches, k, key) && batches[k] in batches;
    assert RowKeyOf(batches[k].source) == RowKeyOf(b.source);
  }

  /** Whether checkpoints are looked up for an artifact: not if its published batch is exactly its own. */
  predicate IsCandidate(scan: Scan, fp: Fingerprint) {
    !exists k :: 0 <= k < |scan.previous| && IsLast(scan.previous, k, KeyOf(fp))
                 && scan.previous[k].source == fp && Matches(scan, scan.previous[k], fp)
  }

  /** Where the stored batches carry the sizes of their artifacts, no checkpoint is looked up. */
  lemma NoCandidates(before: Tables, run: PublishRun, a: Assembly, scan: Scan, i: nat)
    requires LastPublished(before, run, a) && Repeats(run, scan) && i < |a.stored|
    requires a.stored[i].source.size == Focused(run.scan.fingerprints)[i].size
    ensures !IsCandidate(scan, Focused(scan.fingerprints)[i])
  {
    hide Focused, StrictlySorted, Tabulates, KeptRows, SizesAgree, FingerprintMap, Reusable;
    StoredMatches(run, a, scan, i);
    var b := a.stored[i];
    assert b in a.stored;
    assert run.after.batches[RowKeyOf(b.source)] == b && b in scan.previous;
    LastInTable(run.after.batches, scan.previous, b);
  }

  /** The scan would store the published batches again, and publish none of them. */
  lemma RepeatedScanStoresTheSame(
    before: Tables, run: PublishRun, a: Assembly, scan: Scan, again: Assembly)
    requires LastPublished(before, run, a) && Repeats(run, scan) && scan.checkpointed == []
    requires OneBatchEach(scan, again)
    ensures again.stored == a.stored && again.unpublished == []
  {
    hide Focused, StrictlySorted, Current, Repeats, Reusable;
    var fps := Focused(scan.fingerprints);
    assert |a.stored| == |fps| by { SameLength(run, a, scan); }
    assert again.unpublished != [] ==> again.unpublished[0] in again.unpublished;
    forall i | 0 <= i < |fps|
      ensures again.stored[i] == a.stored[i] && ReusesPublished(scan, fps[i])
    {
      EverythingIsReusable(before, run, a, scan, i);
      assert BatchFor(scan, fps[i], again.stored[i]);
    }
  }

  lemma SameLength(run: PublishRun, a: Assembly, scan: Scan)
    requires OneBatchEach(run.scan, a) && Repeats(run, scan)
    ensures |a.stored| == |Focused(scan.fingerprints)|
  {
  }

  // ---------------------------------------------------------------- degradations

  lemma {:induction false} ReusedBringNoNotes(w: World, scan: Scan, tasks: seq<Task>)
    requires forall t <- tasks :: Reusable(scan, t.artifact).Some?
    ensures WarmNotes(w, scan, tasks) == []
  {
    hide Reusable, LoadBatch;
    if tasks != [] {
      var init, last := tasks[..|tasks| - 1], tasks[|tasks| - 1];
      assert tasks == init + [last];
      ReusedBringNoNotes(w, scan, init);
    }
  }

  /** The notes of a list of batches, by member. */
  lemma {:induction false} NotesByMember(w: World, budget: Text, batches: seq<StoredBatch>)
    ensures AllStoredNotes(w, budget, batches).Ok? <==>
              forall b <- batches :: StoredNotes(w, budget, b).Ok?
    ensures AllStoredNotes(w, budget, batches).Ok? ==>
              forall n :: n in AllStoredNotes(w, budget, batches).value <==>
                exists b <- batches :: n in StoredNotes(w, budget, b).value
  {
    hide StoredNotes;
    if batches != [] {
      var init, last := batches[..|batches| - 1], batches[|batches| - 1];
      assert batches == init + [last];
      NotesByMember(w, budget, init);
      assert forall b :: b in batches <==> b in init || b == last;
      if AllStoredNotes(w, budget, batches).Ok? {
        assert AllStoredNotes(w, budget, batches).value
               == AllStoredNotes(w, budget, init).value + StoredNotes(w, budget, last).value;
      }
    }
  }

  /** `load_current_degradation_batches`: lossy batches and those of the data-artifact extractor. */
  predicate CarriesDegradations(b: StoredBatch) {
    b.lossy || b.source.extractor == DATA_ARTIFACT
  }

  ghost predicate DegradationRows(stored: seq<StoredBatch>, loaded: seq<StoredBatch>) {
    forall b :: b in loaded <==> b in stored && CarriesDegradations(b)
  }

  lemma OthersBringNoNotes(w: World, budget: Text, b: StoredBatch)
    requires !CarriesDegradations(b)
    ensures StoredNotes(w, budget, b) == Ok([])
  {
  }

  /** The filtered rows tell the same notes, and fail only if the whole list fails. */
  lemma FilteredNotes(w: World, budget: Text, stored: seq<StoredBatch>, loaded: seq<StoredBatch>)
    requires DegradationRows(stored, loaded)
    ensures AllStoredNotes(w, budget, loaded).Ok? <==> AllStoredNotes(w, budget, stored).Ok?
    ensures AllStoredNotes(w, budget, stored).Ok? ==>
              forall n :: n in AllStoredNotes(w, budget, loaded).value
                          <==> n in AllStoredNotes(w, budget, stored).value
  {
    hide StoredNotes, CarriesDegradations;
    NotesByMember(w, budget, stored);
    NotesByMember(w, budget, loaded);
    forall b | b in stored && !CarriesDegradations(b)
      ensures StoredNotes(w, budget, b) == Ok([])
    {
      OthersBringNoNotes(w, budget, b);
    }
  }

  /**
   With the id of the last publication, the plan is empty, every focused artifact is reusable, and the
   early return reports the extraction degradations of the scan it replaces: the same total and list.
   */
  lemma EarlyReturnReportsTheScan(
    w: World, before: Tables, run: PublishRun, a: Assembly, scan: Scan, jobs: seq<Job>,
    observed: seq<Option<JobResult>>, loaded: seq<StoredBatch>, format: Note -> Text,
    omitted: nat -> Text)
    requires LastPublished(before, run, a) && Repeats(run, scan) && scan.checkpointed == []
    requires Planned(scan, scan.fingerprints, jobs) && Fence.Fenced(Runs(w, scan, jobs), observed)
    requires DegradationRows(a.stored, loaded)
    ensures ClaimsOnce(scan, Merged(observed))
    ensures AssembledFrom(scan, observed).Ok? ==>
              var again := AssembledFrom(scan, observed).value;
              && again.stored == a.stored && again.unpublished == []
              && var early := AllStoredNotes(w, scan.budget, loaded);
                 var full := AllStoredNotes(w, scan.budget, again.stored);
                 && (early.Ok? <==> full.Ok?)
                 && (full.Ok? ==>
                       Degradations.Finalize(Degradations.Formatted(early.value, format), omitted)
                       == Degradations.Finalize(
                            Degradations.Formatted(again.notes + full.value, format), omitted))
  {
    hide Planned, AllTasks, OneBatchEach, LooksWarm, AssembledFrom, Merged, AllStoredNotes, Repeats, Current,
         StrictlySorted, Degradations.Finalize;
    assert StrictlySorted(KeyOf, scan.fingerprints) by { RepeatsSorted(before, run, a, scan); }
    EveryScanAnswers(w, scan, jobs, observed);
    if AssembledFrom(scan, observed).Ok? {
      var again := AssembledFrom(scan, observed).value;
      RepeatedScanStoresTheSame(before, run, a, scan, again);
      RepeatedNotes(w, before, run, a, scan, AllTasks(jobs), again);
      FilteredNotes(w, scan.budget, a.stored, loaded);
      var early, full := AllStoredNotes(w, scan.budget, loaded), AllStoredNotes(w, scan.budget, again.stored);
      if full.Ok? {
        assert again.notes + full.value == full.value;
        Degradations.SameTexts(early.value, full.value, format);
        Degradations.SameTexts(full.value, early.value, format);
        Degradations.FinalizeDependsOnTheSet(
          Degradations.Formatted(early.value, format), Degradations.Formatted(full.value, format), omitted);
      }
    }
  }

  lemma RepeatsSorted(before: Tables, run: PublishRun, a: Assembly, scan: Scan)
    requires LastPublished(before, run, a) && Repeats(run, scan)
    ensures StrictlySorted(KeyOf, scan.fingerprints)
  {
  }

  lemma RepeatedNotes(
    w: World, before: Tables, run: PublishRun, a: Assembly, scan: Scan, tasks: seq<Task>, again: Assembly)
    requires LastPublished(before, run, a) && Repeats(run, scan) && LooksWarm(w, scan, tasks, again)
    ensures again.notes == []
  {
    hide LastPublished, Repeats, Warm, WarmOutputs, WarmNotes, Reusable, Focused;
    var fps := Focused(scan.fingerprints);
    forall t | t in tasks
      ensures Reusable(scan, t.artifact).Some?
    {
      var i :| 0 <= i < |tasks| && tasks[i] == t;
      assert fps[i] == t.artifact;
      EverythingIsReusable(before, run, a, scan, i);
    }
    ReusedBringNoNotes(w, scan, tasks);
  }
}
