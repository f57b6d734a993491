/**
 Histories of scans that assemble from the published tables and publish into them. The tables stay
 current, and the histories are histories of scans, so what is proved of those holds here.
 */
module PublicationHistory {
  import opened Basics
  import opened Artifacts
  import opened Extractors
  import opened FocusedExtraction
  import opened FocusedAssembly
  import opened WarmScans
  import opened ScanHistories
  import opened ArtifactDelta
  import opened ArtifactStore
  import Fence = FailureFence

  type Lossy = (PathEncoding, Text) -> Text

  datatype Tables = Tables(fingerprints: Fingerprints, batches: BatchTable)

  /** A scan with the previous list it loaded, its plan, its delta and what it left behind. */
  datatype PublishRun = PublishRun(
    scan: Scan, jobs: seq<Job>, observed: seq<Option<JobResult>>,
    previous: seq<Fingerprint>, changes: seq<Change>, delta: Delta,
    after: Tables, checkpoints: set<StoredBatch>)

  /** The run returned an assembly, turned it into a delta and applied it. */
  ghost predicate Publishes(before: Tables, run: PublishRun, a: Assembly) {
    && ClaimsOnce(run.scan, Merged(run.observed))
    && AssembledFrom(run.scan, run.observed) == Ok(a)
    && DeltaMatches(run.scan.fingerprints, run.changes, run.delta)
    && (forall i :: 0 <= i < |a.unpublished| ==> a.unpublished[i] < |a.stored|)
    && run.delta.batches == Picked(a.stored, a.unpublished)
    && run.after == Tables(PublishedFingerprints(before.fingerprints, run.delta),
                           PublishedBatches(before.batches, run.delta))
  }

  /** One scan over the tables, full or partial, whatever happens to its files; it publishes its
      assembly or changes nothing. */
  ghost predicate PublishStep(
    w: World, lossy: Lossy, before: Tables, offered: set<StoredBatch>, run: PublishRun)
  {
    && Tabulates(before.fingerprints, run.previous) && Loaded(before.batches, run.scan.previous)
    && (forall b <- run.scan.checkpointed :: b in offered)
    && Native(lossy, run.scan.fingerprints)
    && (forall c :: c in run.changes <==>
          Changed(FingerprintMap(run.previous), FingerprintMap(run.scan.fingerprints), c))
    && run.scan.changed == (set c | c in run.changes :: c.key)
    && StrictlySorted(KeyOf, run.scan.fingerprints)
    && Planned(run.scan, run.scan.fingerprints, run.jobs)
    && Fence.Fenced(Runs(w, run.scan, run.jobs), run.observed)
    && (forall b <- run.checkpoints :: b in offered || b in FreshOf(Merged(run.observed)))
    && (run.after == before || exists a :: Publishes(before, run, a))
  }

  /** What the tables hold between scans. */
  ghost predicate Held(lossy: Lossy, t: Tables) {
    && (forall row :: row in t.fingerprints ==> RowKeyOf(t.fingerprints[row]) == row)
    && (forall row :: row in t.fingerprints ==> Native(lossy, [t.fingerprints[row]]))
    && BatchRows(t.fingerprints, t.batches)
  }

  /** The tables are those of the scan's assembly. */
  ghost predicate Current(before: Tables, run: PublishRun, a: Assembly) {
    && Tabulates(run.after.fingerprints, KeptRows(FingerprintMap(run.previous), run.scan.fingerprints))
    && (Tabulates(run.after.fingerprints, run.scan.fingerprints)
        <==> SizesAgree(run.previous, run.scan.fingerprints))
    && TabulatesBatches(run.after.batches, a.stored)
  }

  function CachesOf(t: Tables, checkpoints: set<StoredBatch>): Caches {
    Caches(t.batches.Values, checkpoints)
  }

  function AsScan(run: PublishRun): ScanRun {
    ScanRun(run.scan, run.jobs, run.observed, CachesOf(run.after, run.checkpoints))
  }

  // ---------------------------------------------------------------- one step

  lemma PreviousIsNative(lossy: Lossy, t: Tables, previous: seq<Fingerprint>)
    requires Held(lossy, t) && Tabulates(t.fingerprints, previous)
    ensures Native(lossy, previous)
  {
    forall fp | fp in previous
      ensures fp.path.display == lossy(fp.path.encoding, fp.path.bytes)
    {
      assert Native(lossy, [t.fingerprints[RowKeyOf(fp)]]);
      assert fp in [fp];
    }
  }

  /** A publishing step leaves the tables of its assembly. */
  lemma PublishingIsCurrent(
    w: World, lossy: Lossy, before: Tables, offered: set<StoredBatch>, run: PublishRun, a: Assembly)
    requires Held(lossy, before) && PublishStep(w, lossy, before, offered, run)
    requires Publishes(before, run, a)
    ensures OneBatchEach(run.scan, a) && Current(before, run, a)
  {
    hide OneBatchEach, AssembledFrom, Merged, Tabulates, TabulatesBatches, Planned, DeltaMatches, Changed,
         KeptRows, SizesAgree, Native, Loaded, PublishedFingerprints, PublishedBatches,
         BatchRows;
    StepAnswers(w, AsScan(run));
    PreviousIsNative(lossy, before, run.previous);
    PublishedTables(lossy, before.fingerprints, before.batches, run.previous, run.scan, run.changes, a,
                    run.delta);
  }

  lemma KeptRowsAreNative(lossy: Lossy, previous: seq<Fingerprint>, current: seq<Fingerprint>)
    requires Native(lossy, previous) && Native(lossy, current)
    ensures Native(lossy, KeptRows(FingerprintMap(previous), current))
  {
    var kept := KeptRows(FingerprintMap(previous), current);
    forall fp | fp in kept
      ensures fp.path.display == lossy(fp.path.encoding, fp.path.bytes)
    {
      var i :| 0 <= i < |current| && fp == KeptRow(FingerprintMap(previous), current[i]);
      assert current[i] in current;
    }
  }

  lemma KeptRowsHaveKeys(previous: map<Key, Fingerprint>, current: seq<Fingerprint>, fp: Fingerprint)
    requires fp in current && forall k :: k in previous ==> KeyOf(previous[k]) == k
    ensures exists kept <- KeptRows(previous, current) :: KeyOf(kept) == KeyOf(fp)
  {
    var i :| 0 <= i < |current| && current[i] == fp;
    assert KeptRows(previous, current)[i] in KeptRows(previous, current);
  }

  lemma BatchRowsAfter(
    scan: Scan, previous: map<Key, Fingerprint>, a: Assembly, after: Tables)
    requires OneBatchEach(scan, a) && forall k :: k in previous ==> KeyOf(previous[k]) == k
    requires Tabulates(after.fingerprints, KeptRows(previous, scan.fingerprints))
    requires TabulatesBatches(after.batches, a.stored)
    ensures BatchRows(after.fingerprints, after.batches)
  {
    hide OneBatchEach, KeptRows, IsFocused;
    forall row | row in after.batches
      ensures row in after.fingerprints && IsFocused(row.extractor)
      ensures RowKeyOf(after.batches[row].source) == row
    {
      var b := after.batches[row];
      StoredHasCurrent(scan, a, b);
      var fp :| fp in scan.fingerprints && KeyOf(fp) == KeyOf(b.source);
      KeptRowsHaveKeys(previous, scan.fingerprints, fp);
    }
  }

  lemma HeldAfter(lossy: Lossy, kept: seq<Fingerprint>, after: Tables)
    requires Native(lossy, kept) && Tabulates(after.fingerprints, kept)
    requires BatchRows(after.fingerprints, after.batches)
    ensures Held(lossy, after)
  {
    hide BatchRows;
    forall row | row in after.fingerprints
      ensures Native(lossy, [after.fingerprints[row]])
    {
      assert after.fingerprints[row] in kept;
    }
  }

  /** Every step keeps what the tables hold. */
  lemma StepHolds(w: World, lossy: Lossy, before: Tables, offered: set<StoredBatch>, run: PublishRun)
    requires Held(lossy, before) && PublishStep(w, lossy, before, offered, run)
    ensures Held(lossy, run.after)
  {
    hide OneBatchEach, KeptRows, Publishes, BatchRows, SizesAgree, Tabulates, TabulatesBatches, Native, Held,
         StrictlySorted, Planned, Changed, Loaded, Merged;
    if run.after != before {
      var a :| Publishes(before, run, a);
      PublishingIsCurrent(w, lossy, before, offered, run, a);
      PreviousIsNative(lossy, before, run.previous);
      KeptRowsAreNative(lossy, run.previous, run.scan.fingerprints);
      BatchRowsAfter(run.scan, FingerprintMap(run.previous), a, run.after);
      HeldAfter(lossy, KeptRows(FingerprintMap(run.previous), run.scan.fingerprints), run.after);
    }
  }

  lemma TableValues(rows: BatchTable, stored: seq<StoredBatch>)
    requires TabulatesBatches(rows, stored)
    ensures rows.Values == Elements(stored)
  {
    forall b | b in stored
      ensures b in rows.Values
    {
      assert rows[RowKeyOf(b.source)] == b;
    }
  }

  /** A step over the tables is a step of a scan history. */
  lemma StepIsAScan(w: World, lossy: Lossy, before: Tables, offered: set<StoredBatch>, run: PublishRun)
    requires Held(lossy, before) && PublishStep(w, lossy, before, offered, run)
    ensures ScanStep(w, CachesOf(before, offered), AsScan(run))
  {
    hide OneBatchEach, AssembledFrom, Merged, Tabulates, StrictlySorted, Planned, DeltaMatches,
         Changed, FreshOf, Held, Native;
    forall b | b in run.scan.previous
      ensures b in before.batches.Values
    {
      assert before.batches[RowKeyOf(b.source)] == b;
    }
    if run.after != before {
      var a :| Publishes(before, run, a);
      PublishingIsCurrent(w, lossy, before, offered, run, a);
      TableValues(run.after.batches, a.stored);
    }
  }

  // ---------------------------------------------------------------- whole histories

  function TablesBefore(runs: seq<PublishRun>, i: nat): Tables
    requires i <= |runs|
  {
    if i == 0 then Tables(map[], map[]) else runs[i - 1].after
  }

  function OfferedBefore(runs: seq<PublishRun>, i: nat): set<StoredBatch>
    requires i <= |runs|
  {
    if i == 0 then {} else runs[i - 1].checkpoints
  }

  ghost predicate Published(w: World, lossy: Lossy, runs: seq<PublishRun>) {
    forall i :: 0 <= i < |runs| ==>
      PublishStep(w, lossy, TablesBefore(runs, i), OfferedBefore(runs, i), runs[i])
  }

  lemma {:induction false} TablesHold(w: World, lossy: Lossy, runs: seq<PublishRun>, i: nat)
    requires Published(w, lossy, runs) && i <= |runs|
    ensures Held(lossy, TablesBefore(runs, i))
  {
    hide PublishStep;
    if i == 0 {
      assert Held(lossy, Tables(map[], map[]));
    } else {
      TablesHold(w, lossy, runs, i - 1);
      hide Held;
      StepHolds(w, lossy, TablesBefore(runs, i - 1), OfferedBefore(runs, i - 1), runs[i - 1]);
    }
  }

  /**
   In any history of assembling and publishing, every scan that publishes leaves tables of exactly
   its answers: one batch row per focused artifact, and one fingerprint row per artifact, current if
   and only if no size changed under an unchanged hash.
   */
  lemma EveryPublicationIsCurrent(w: World, lossy: Lossy, runs: seq<PublishRun>, i: nat, a: Assembly)
    requires Published(w, lossy, runs) && i < |runs| && Publishes(TablesBefore(runs, i), runs[i], a)
    ensures OneBatchEach(runs[i].scan, a) && Current(TablesBefore(runs, i), runs[i], a)
  {
    hide PublishStep, Held, Publishes, OneBatchEach, Current;
    TablesHold(w, lossy, runs, i);
    assert PublishStep(w, lossy, TablesBefore(runs, i), OfferedBefore(runs, i), runs[i]);
    PublishingIsCurrent(w, lossy, TablesBefore(runs, i), OfferedBefore(runs, i), runs[i], a);
  }

  function AsScans(runs: seq<PublishRun>): (scans: seq<ScanRun>)
    ensures |scans| == |runs| && forall i :: 0 <= i < |runs| ==> scans[i] == AsScan(runs[i])
  {
    seq(|runs|, i requires 0 <= i < |runs| => AsScan(runs[i]))
  }

  /** A history of publications is a history of scans. */
  lemma PublicationsAreScans(w: World, lossy: Lossy, runs: seq<PublishRun>)
    requires Published(w, lossy, runs)
    ensures History(w, AsScans(runs))
  {
    hide PublishStep, Held, ScanStep;
    forall i | 0 <= i < |runs|
      ensures ScanStep(w, Before(AsScans(runs), i), AsScans(runs)[i])
    {
      TablesHold(w, lossy, runs, i);
      assert PublishStep(w, lossy, TablesBefore(runs, i), OfferedBefore(runs, i), runs[i]);
      StepIsAScan(w, lossy, TablesBefore(runs, i), OfferedBefore(runs, i), runs[i]);
      EmptyTables();
      assert Before(AsScans(runs), i) == CachesOf(TablesBefore(runs, i), OfferedBefore(runs, i));
    }
  }

  lemma EmptyTables()
    ensures CachesOf(Tables(map[], map[]), {}) == Caches({}, {})
  {
  }

  /** So with kept crate roots and sizes every publishing scan gives the cold scan's result. */
  lemma PublishedScansLookCold(w: World, lossy: Lossy, runs: seq<PublishRun>, i: nat)
    requires CodecInverts(w) && Published(w, lossy, runs) && i < |runs|
    requires RootsKept(w, AsScans(runs), i) && ReadsSound(w, AsScans(runs), i) && SizesKept(runs[i].scan)
    ensures ClaimsOnce(runs[i].scan, Merged(runs[i].observed))
    ensures GivesCold(w, runs[i].scan, AssembledFrom(runs[i].scan, runs[i].observed))
  {
    hide Published, History, RootsKept, ReadsSound, SizesKept, GivesCold, AssembledFrom, Merged;
    PublicationsAreScans(w, lossy, runs);
    EveryScanOfAHistoryLooksCold(w, AsScans(runs), i);
  }
}
