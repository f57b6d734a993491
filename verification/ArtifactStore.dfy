/** The published artifact tables and the exactness of delta publication. */
module ArtifactStore {
  import opened Basics
  import opened Artifacts
  import opened Extractors
  import opened ArtifactDelta
  import opened FocusedExtraction
  import opened FocusedAssembly
  import opened WarmScans

  /** Primary key of both tables inside a workspace: the artifact key without the display path. */
  datatype RowKey = RowKey(
    repo: Text, checkout: Text, encoding: PathEncoding, bytes: Text, extractor: Text)

  function RowOf(k: Key): RowKey {
    RowKey(k.repo, k.checkout, k.path.encoding, k.path.bytes, k.extractor)
  }

  function RowKeyOf(fp: Fingerprint): RowKey { RowOf(KeyOf(fp)) }

  type Fingerprints = map<RowKey, Fingerprint>
  type BatchTable = map<RowKey, StoredBatch>

  function UpsertFingerprints(m: Fingerprints, fps: seq<Fingerprint>): Fingerprints {
    if fps == [] then m else
      var last := fps[|fps| - 1];
      UpsertFingerprints(m, fps[..|fps| - 1])[RowKeyOf(last) := last]
  }

  function UpsertBatches(m: BatchTable, batches: seq<StoredBatch>): BatchTable {
    if batches == [] then m else
      var last := batches[|batches| - 1];
      UpsertBatches(m, batches[..|batches| - 1])[RowKeyOf(last.source) := last]
  }

  function Rows(removed: seq<Key>): set<RowKey> {
    set k | k in removed :: RowOf(k)
  }

  function PublishedFingerprints(m: Fingerprints, delta: Delta): Fingerprints {
    UpsertFingerprints(m, delta.fingerprints) - Rows(delta.removed)
  }

  function PublishedBatches(m: BatchTable, delta: Delta): BatchTable {
    UpsertBatches(m, delta.batches) - Rows(delta.removed)
  }

  class Store {
    var fingerprints: Fingerprints
    var batches: BatchTable

    constructor ()
      ensures fingerprints == map[] && batches == map[]
    {
      fingerprints, batches := map[], map[];
    }

    /** `apply_artifact_delta`: upserts first, deletions last. */
    method ApplyDelta(delta: Delta)
      modifies this
      ensures fingerprints == PublishedFingerprints(old(fingerprints), delta)
      ensures batches == PublishedBatches(old(batches), delta)
    {
      var i := 0;
      while i < |delta.fingerprints|
        invariant 0 <= i <= |delta.fingerprints| && batches == old(batches)
        invariant fingerprints == UpsertFingerprints(old(fingerprints), delta.fingerprints[..i])
      {
        assert delta.fingerprints[..i + 1][..i] == delta.fingerprints[..i];
        fingerprints := fingerprints[RowKeyOf(delta.fingerprints[i]) := delta.fingerprints[i]];
        i := i + 1;
      }
      assert delta.fingerprints[..i] == delta.fingerprints;
      i := 0;
      while i < |delta.batches|
        invariant 0 <= i <= |delta.batches|
        invariant fingerprints == UpsertFingerprints(old(fingerprints), delta.fingerprints)
        invariant batches == UpsertBatches(old(batches), delta.batches[..i])
      {
        assert delta.batches[..i + 1][..i] == delta.batches[..i];
        batches := batches[RowKeyOf(delta.batches[i].source) := delta.batches[i]];
        i := i + 1;
      }
      assert delta.batches[..i] == delta.batches;
      fingerprints := fingerprints - Rows(delta.removed);
      batches := batches - Rows(delta.removed);
    }
  }

  // ---------------------------------------------------------------- tables and lists

  /** The table holds exactly the fingerprints of the list. */
  ghost predicate Tabulates(m: Fingerprints, fps: seq<Fingerprint>) {
    && (forall fp <- fps :: RowKeyOf(fp) in m && m[RowKeyOf(fp)] == fp)
    && (forall row :: row in m ==> m[row] in fps && RowKeyOf(m[row]) == row)
  }

  ghost predicate TabulatesBatches(m: BatchTable, batches: seq<StoredBatch>) {
    && (forall b <- batches :: RowKeyOf(b.source) in m && m[RowKeyOf(b.source)] == b)
    && (forall row :: row in m ==> m[row] in batches && RowKeyOf(m[row].source) == row)
  }

  ghost predicate OneRowEach(fps: seq<Fingerprint>) {
    forall a, b :: a in fps && b in fps && RowKeyOf(a) == RowKeyOf(b) ==> a == b
  }

  /** Artifacts that share a row also share their display path. */
  ghost predicate DisplaysAgree(previous: seq<Fingerprint>, current: seq<Fingerprint>) {
    forall p, c :: p in previous && c in current && RowKeyOf(p) == RowKeyOf(c) ==>
      p.path.display == c.path.display
  }

  /** An artifact whose hash did not change has the size it had. */
  ghost predicate SizesAgree(previous: seq<Fingerprint>, current: seq<Fingerprint>) {
    forall p, c :: p in previous && c in current && KeyOf(p) == KeyOf(c) && p.contentHash == c.contentHash
      ==> p.size == c.size
  }

  /** The row publication leaves for a current artifact: with an unchanged hash, the previous one. */
  function KeptRow(previous: map<Key, Fingerprint>, fp: Fingerprint): Fingerprint {
    var k := KeyOf(fp);
    if k in previous && previous[k].contentHash == fp.contentHash then previous[k] else fp
  }

  function KeptRows(previous: map<Key, Fingerprint>, current: seq<Fingerprint>): seq<Fingerprint> {
    seq(|current|, i requires 0 <= i < |current| => KeptRow(previous, current[i]))
  }

  lemma {:induction false} UpsertedRows(m: Fingerprints, fps: seq<Fingerprint>)
    ensures forall row :: row in UpsertFingerprints(m, fps) <==>
              row in m || exists fp <- fps :: RowKeyOf(fp) == row
    ensures forall row :: row in UpsertFingerprints(m, fps) ==>
              || (UpsertFingerprints(m, fps)[row] in fps
                  && RowKeyOf(UpsertFingerprints(m, fps)[row]) == row)
              || (row in m && UpsertFingerprints(m, fps)[row] == m[row]
                  && forall fp <- fps :: RowKeyOf(fp) != row)
  {
    if fps != [] {
      UpsertedRows(m, fps[..|fps| - 1]);
      assert fps == fps[..|fps| - 1] + [fps[|fps| - 1]];
    }
  }

  lemma {:induction false} UpsertedBatchRows(m: BatchTable, batches: seq<StoredBatch>)
    ensures forall row :: row in UpsertBatches(m, batches) <==>
              row in m || exists b <- batches :: RowKeyOf(b.source) == row
    ensures forall row :: row in UpsertBatches(m, batches) ==>
              || (UpsertBatches(m, batches)[row] in batches
                  && RowKeyOf(UpsertBatches(m, batches)[row].source) == row)
              || (row in m && UpsertBatches(m, batches)[row] == m[row]
                  && forall b <- batches :: RowKeyOf(b.source) != row)
  {
    if batches != [] {
      UpsertedBatchRows(m, batches[..|batches| - 1]);
      assert batches == batches[..|batches| - 1] + [batches[|batches| - 1]];
    }
  }

  /** Everything delta publication starts from. */
  ghost predicate Publication(
    table: Fingerprints, previous: seq<Fingerprint>, current: seq<Fingerprint>,
    changes: seq<Change>, delta: Delta)
  {
    && Tabulates(table, previous)
    && StrictlySorted(KeyOf, current) && OneRowEach(current)
    && (forall c :: c in changes <==> Changed(FingerprintMap(previous), FingerprintMap(current), c))
    && DeltaMatches(current, changes, delta)
  }

  lemma PreviousRow(table: Fingerprints, previous: seq<Fingerprint>, k: Key)
    requires Tabulates(table, previous)
    ensures k in FingerprintMap(previous) <==> RowOf(k) in table && KeyOf(table[RowOf(k)]) == k
    ensures k in FingerprintMap(previous) ==> FingerprintMap(previous)[k] == table[RowOf(k)]
  {
    if k in FingerprintMap(previous) {
      assert FingerprintMap(previous)[k] in previous;
    }
  }

  /** A row is deleted exactly when its previous artifact has no current artifact with its key. */
  lemma RemovedRow(
    table: Fingerprints, previous: seq<Fingerprint>, current: seq<Fingerprint>,
    changes: seq<Change>, delta: Delta, row: RowKey)
    requires Publication(table, previous, current, changes, delta)
    ensures row in Rows(delta.removed)
            <==> row in table && KeyOf(table[row]) !in FingerprintMap(current)
  {
    if row in Rows(delta.removed) {
      var k :| k in delta.removed && RowOf(k) == row;
      assert Change(k, Deleted) in changes;
      PreviousRow(table, previous, k);
    }
    if row in table && KeyOf(table[row]) !in FingerprintMap(current) {
      var k := KeyOf(table[row]);
      PreviousRow(table, previous, k);
      assert Change(k, Deleted) in changes;
      assert k in delta.removed;
    }
  }

  /** A current fingerprint is written, or its hash is unchanged and its row holds the previous one. */
  lemma WrittenOrUnchanged(
    table: Fingerprints, previous: seq<Fingerprint>, current: seq<Fingerprint>,
    changes: seq<Change>, delta: Delta, fp: Fingerprint)
    requires Publication(table, previous, current, changes, delta) && fp in current
    ensures var prev := FingerprintMap(previous);
            if fp in delta.fingerprints then KeptRow(prev, fp) == fp
            else RowKeyOf(fp) in table && table[RowKeyOf(fp)] == KeptRow(prev, fp)
  {
    var k := KeyOf(fp);
    var prev, cur := FingerprintMap(previous), FingerprintMap(current);
    PreviousRow(table, previous, k);
    assert cur[k] == fp by { SameKeySameElement(KeyOf, current, cur[k], fp); }
    hide StrictlySorted, Tabulates, OneRowEach;
    if k !in prev {
      assert Change(k, Added) in changes;
    } else if prev[k].contentHash != fp.contentHash {
      assert Change(k, Modified) in changes;
    } else {
      assert forall c <- changes :: c.key != k;
    }
  }

  lemma UpsertedRow(m: Fingerprints, fps: seq<Fingerprint>, fp: Fingerprint)
    requires forall x <- fps :: RowKeyOf(x) == RowKeyOf(fp) ==> x == fp
    requires fp in fps || RowKeyOf(fp) in m
    ensures var row := RowKeyOf(fp);
            row in UpsertFingerprints(m, fps)
            && UpsertFingerprints(m, fps)[row] == if fp in fps then fp else m[row]
  {
    UpsertedRows(m, fps);
  }

  lemma CurrentRow(
    table: Fingerprints, previous: seq<Fingerprint>, current: seq<Fingerprint>,
    changes: seq<Change>, delta: Delta, fp: Fingerprint)
    requires Publication(table, previous, current, changes, delta) && fp in current
    ensures var m := UpsertFingerprints(table, delta.fingerprints);
            RowKeyOf(fp) in m && m[RowKeyOf(fp)] == KeptRow(FingerprintMap(previous), fp)
  {
    WrittenOrUnchanged(table, previous, current, changes, delta, fp);
    hide UpsertFingerprints, StrictlySorted, Tabulates, Changed, KeptRow, FingerprintMap;
    assert forall x <- delta.fingerprints :: x in current;
    UpsertedRow(table, delta.fingerprints, fp);
  }

  /** Publication leaves, for every current artifact, the row it should, and no other row. */
  lemma AgreeingPublication(
    table: Fingerprints, previous: seq<Fingerprint>, current: seq<Fingerprint>,
    changes: seq<Change>, delta: Delta)
    requires Publication(table, previous, current, changes, delta)
    requires DisplaysAgree(previous, current)
    ensures Tabulates(PublishedFingerprints(table, delta), KeptRows(FingerprintMap(previous), current))
  {
    var prev := FingerprintMap(previous);
    var kept, result := KeptRows(prev, current), PublishedFingerprints(table, delta);
    forall fp | fp in kept
      ensures RowKeyOf(fp) in result && result[RowKeyOf(fp)] == fp
    {
      var i :| 0 <= i < |current| && fp == KeptRow(prev, current[i]);
      KeptAndNotRemoved(table, previous, current, changes, delta, current[i]);
    }
    forall row | row in result
      ensures result[row] in kept && RowKeyOf(result[row]) == row
    {
      RowHasCurrent(table, previous, current, changes, delta, row);
      var fp :| fp in current && RowKeyOf(fp) == row;
      CurrentRow(table, previous, current, changes, delta, fp);
      var i :| 0 <= i < |current| && current[i] == fp;
      assert kept[i] == KeptRow(prev, fp);
    }
  }

  lemma KeptAndNotRemoved(
    table: Fingerprints, previous: seq<Fingerprint>, current: seq<Fingerprint>,
    changes: seq<Change>, delta: Delta, fp: Fingerprint)
    requires Publication(table, previous, current, changes, delta)
    requires DisplaysAgree(previous, current) && fp in current
    ensures var result := PublishedFingerprints(table, delta);
            var kept := KeptRow(FingerprintMap(previous), fp);
            RowKeyOf(kept) == RowKeyOf(fp) && RowKeyOf(fp) in result && result[RowKeyOf(fp)] == kept
  {
    hide DeltaMatches, Changed;
    var row := RowKeyOf(fp);
    CurrentRow(table, previous, current, changes, delta, fp);
    RemovedRow(table, previous, current, changes, delta, row);
    if row in table {
      assert table[row] in previous;
      assert KeyOf(table[row]) == KeyOf(fp);
    }
  }

  lemma RowHasCurrent(
    table: Fingerprints, previous: seq<Fingerprint>, current: seq<Fingerprint>,
    changes: seq<Change>, delta: Delta, row: RowKey)
    requires Publication(table, previous, current, changes, delta)
    requires row in PublishedFingerprints(table, delta)
    ensures exists fp <- current :: RowKeyOf(fp) == row
  {
    UpsertedRows(table, delta.fingerprints);
    RemovedRow(table, previous, current, changes, delta, row);
    hide UpsertFingerprints, Changed, StrictlySorted;
    if x :| x in delta.fingerprints && RowKeyOf(x) == row {
      assert x in current;
    } else {
      var fp := FingerprintMap(current)[KeyOf(table[row])];
      assert RowKeyOf(fp) == row;
    }
  }

  lemma KeptRowsAreCurrent(table: Fingerprints, previous: seq<Fingerprint>, current: seq<Fingerprint>)
    requires Tabulates(table, previous)
    ensures KeptRows(FingerprintMap(previous), current) == current <==> SizesAgree(previous, current)
  {
    var prev := FingerprintMap(previous);
    var kept := KeptRows(prev, current);
    if kept == current {
      forall p, c | p in previous && c in current && KeyOf(p) == KeyOf(c) && p.contentHash == c.contentHash
        ensures p.size == c.size
      {
        PreviousRow(table, previous, KeyOf(p));
        var i :| 0 <= i < |current| && current[i] == c;
        assert kept[i] == prev[KeyOf(p)] == p;
      }
    }
    if SizesAgree(previous, current) {
      forall i | 0 <= i < |current|
        ensures kept[i] == current[i]
      {
        var c := current[i];
        assert KeyOf(c) in prev ==> prev[KeyOf(c)] in previous;
      }
    }
  }

  /**
   Delta publication is exact if and only if artifacts that share a row share a display path and
   artifacts with an unchanged hash have an unchanged size: only changed rows are written, and only
   the hash tells a change.
   */
  lemma FingerprintPublicationIsExact(
    table: Fingerprints, previous: seq<Fingerprint>, current: seq<Fingerprint>,
    changes: seq<Change>, delta: Delta)
    requires Publication(table, previous, current, changes, delta)
    ensures Tabulates(PublishedFingerprints(table, delta), current)
            <==> DisplaysAgree(previous, current) && SizesAgree(previous, current)
  {
    hide DeltaMatches, Changed;
    var prev, result := FingerprintMap(previous), PublishedFingerprints(table, delta);
    if !DisplaysAgree(previous, current) {
      var p, c :| p in previous && c in current && RowKeyOf(p) == RowKeyOf(c)
                  && p.path.display != c.path.display;
      DisagreeingPublication(table, previous, current, changes, delta, p, c);
    } else {
      AgreeingPublication(table, previous, current, changes, delta);
      KeptRowsAreCurrent(table, previous, current);
      if Tabulates(result, current) {
        forall i | 0 <= i < |current|
          ensures KeptRow(prev, current[i]) == current[i]
        {
          KeptAndNotRemoved(table, previous, current, changes, delta, current[i]);
          assert current[i] in current;
        }
        assert KeptRows(prev, current) == current;
      }
    }
  }

  /** Displays are computed from the stored bytes of the same path. */
  ghost predicate Native(lossy: (PathEncoding, Text) -> Text, fps: seq<Fingerprint>) {
    forall fp <- fps :: fp.path.display == lossy(fp.path.encoding, fp.path.bytes)
  }

  /** So displays always agree, and a sorted list has one artifact per row. */
  lemma NativeDisplaysAgree(
    lossy: (PathEncoding, Text) -> Text, previous: seq<Fingerprint>, current: seq<Fingerprint>)
    requires Native(lossy, previous) && Native(lossy, current) && StrictlySorted(KeyOf, current)
    ensures DisplaysAgree(previous, current) && OneRowEach(current)
  {
    forall a, b | a in current && b in current && RowKeyOf(a) == RowKeyOf(b)
      ensures a == b
    {
      SameKeySameElement(KeyOf, current, a, b);
    }
  }

  /** A size recorded too early stays published: the hash is unchanged, so the plan is empty. */
  lemma StaleSizeStaysPublished(table: Fingerprints, p: Fingerprint, size: nat)
    requires Tabulates(table, [p]) && size != p.size
    ensures var c := p.(size := size);
            && Publication(table, [p], [c], [], Delta([], [], []))
            && DisplaysAgree([p], [c])
            && !Tabulates(PublishedFingerprints(table, Delta([], [], [])), [c])
  {
    var c := p.(size := size);
    assert [p][..0] == [] && [c][..0] == [];
    assert FingerprintMap([p]) == map[KeyOf(p) := p] && FingerprintMap([c]) == map[KeyOf(c) := c];
    assert forall change :: !Changed(FingerprintMap([p]), FingerprintMap([c]), change);
    FingerprintPublicationIsExact(table, [p], [c], [], Delta([], [], []));
    assert p in [p] && c in [c];
  }

  /** The failing family: the row of an artifact whose display path changed is written, then lost. */
  lemma DisagreeingPublication(
    table: Fingerprints, previous: seq<Fingerprint>, current: seq<Fingerprint>,
    changes: seq<Change>, delta: Delta, p: Fingerprint, c: Fingerprint)
    requires Publication(table, previous, current, changes, delta)
    requires p in previous && c in current && RowKeyOf(p) == RowKeyOf(c)
    requires p.path.display != c.path.display
    ensures RowKeyOf(c) !in PublishedFingerprints(table, delta)
  {
    hide DeltaMatches, Changed, UpsertFingerprints, Rows;
    assert forall x <- current :: RowKeyOf(x) == RowKeyOf(c) ==> KeyOf(x) == KeyOf(c);
    assert KeyOf(p) !in FingerprintMap(current);
    RemovedRow(table, previous, current, changes, delta, RowKeyOf(p));
  }

  // ---------------------------------------------------------------- batches

  /** The stored batches of a scan: one per current artifact that has or gets a batch row, and
      those not written again already stand in their row. */
  ghost predicate BatchPublication(
    table: Fingerprints, rows: BatchTable, current: seq<Fingerprint>, stored: seq<StoredBatch>,
    delta: Delta)
  {
    && (forall b <- stored :: exists fp <- current :: KeyOf(fp) == KeyOf(b.source))
    && (forall a, b :: a in stored && b in stored && RowKeyOf(a.source) == RowKeyOf(b.source) ==> a == b)
    && (forall row :: row in rows ==> row in table)
    && (forall fp <- current :: RowKeyOf(fp) in rows ==>
          exists b <- stored :: KeyOf(b.source) == KeyOf(fp))
    && (forall b <- delta.batches :: b in stored)
    && (forall b <- stored :: b in delta.batches
          || (RowKeyOf(b.source) in rows && rows[RowKeyOf(b.source)] == b))
  }

  /** Under the same condition the batch table becomes exactly the stored batches of the scan. */
  lemma BatchPublicationIsExact(
    table: Fingerprints, rows: BatchTable, previous: seq<Fingerprint>, current: seq<Fingerprint>,
    changes: seq<Change>, stored: seq<StoredBatch>, delta: Delta)
    requires Publication(table, previous, current, changes, delta)
    requires DisplaysAgree(previous, current)
    requires BatchPublication(table, rows, current, stored, delta)
    ensures TabulatesBatches(PublishedBatches(rows, delta), stored)
  {
    hide DeltaMatches, Changed;
    var result := PublishedBatches(rows, delta);
    UpsertedBatchRows(rows, delta.batches);
    forall b | b in stored
      ensures RowKeyOf(b.source) in result && result[RowKeyOf(b.source)] == b
    {
      var row := RowKeyOf(b.source);
      var fp :| fp in current && KeyOf(fp) == KeyOf(b.source);
      RemovedRow(table, previous, current, changes, delta, row);
      if row in table {
        assert table[row] in previous;
        assert KeyOf(table[row]) == KeyOf(fp);
      }
    }
    forall row | row in result
      ensures result[row] in stored && RowKeyOf(result[row].source) == row
    {
      RemovedRow(table, previous, current, changes, delta, row);
      if result[row] !in delta.batches {
        var fp := FingerprintMap(current)[KeyOf(table[row])];
        assert RowKeyOf(fp) == row;
        var b :| b in stored && KeyOf(b.source) == KeyOf(fp);
      }
    }
  }

  /** What the tables hold between scans: every batch row has its own row key and a focused artifact
      beside it. */
  ghost predicate BatchRows(table: Fingerprints, rows: BatchTable) {
    forall row :: row in rows ==>
      row in table && IsFocused(row.extractor) && RowKeyOf(rows[row].source) == row
  }

  /** The batches a scan was offered stand in the table; oversized rows may be missing. */
  ghost predicate Loaded(rows: BatchTable, batches: seq<StoredBatch>) {
    forall b <- batches :: RowKeyOf(b.source) in rows && rows[RowKeyOf(b.source)] == b
  }

  /** A batch left out of the delta was reused from the table and stands there already. */
  lemma SkippedBatchIsPublished(scan: Scan, rows: BatchTable, a: Assembly, i: nat)
    requires OneBatchEach(scan, a) && Loaded(rows, scan.previous)
    requires i < |a.stored| && i !in a.unpublished
    ensures RowKeyOf(a.stored[i].source) in rows && rows[RowKeyOf(a.stored[i].source)] == a.stored[i]
  {
    hide Focused;
    var fp := Focused(scan.fingerprints)[i];
    assert ReusesPublished(scan, fp);
    assert a.stored[i] in scan.previous;
  }

  lemma {:induction false} FocusedMembers(fps: seq<Fingerprint>, fp: Fingerprint)
    ensures fp in Focused(fps) <==> fp in fps && IsFocused(fp.extractor)
  {
    hide IsFocused;
    if fps != [] {
      FocusedMembers(fps[..|fps| - 1], fp);
      assert fps == fps[..|fps| - 1] + [fps[|fps| - 1]];
    }
  }

  lemma StoredKey(scan: Scan, a: Assembly, i: nat)
    requires OneBatchEach(scan, a) && i < |a.stored|
    ensures KeyOf(a.stored[i].source) == KeyOf(Focused(scan.fingerprints)[i])
  {
    hide Focused;
  }

  /** Two stored batches with one row are one batch. */
  lemma StoredRowsDiffer(scan: Scan, a: Assembly, i: nat, j: nat)
    requires OneBatchEach(scan, a) && i < |a.stored| && j < |a.stored|
    requires StrictlySorted(KeyOf, scan.fingerprints) && OneRowEach(scan.fingerprints)
    requires RowKeyOf(a.stored[i].source) == RowKeyOf(a.stored[j].source)
    ensures i == j
  {
    hide OneBatchEach, CompareKey, Focused, StrictlySorted, IsFocused;
    StoredLength(scan, a);
    StoredKey(scan, a, i);
    StoredKey(scan, a, j);
    FocusedKeepsOrder(scan.fingerprints);
    var fps := Focused(scan.fingerprints);
    assert fps[i] in fps && fps[j] in fps;
    SamePlace(fps, i, j);
  }

  lemma SamePlace(fps: seq<Fingerprint>, i: nat, j: nat)
    requires StrictlySorted(KeyOf, fps) && i < |fps| && j < |fps| && fps[i] == fps[j]
    ensures i == j
  {
    KeyTotal(KeyOf(fps[i]), KeyOf(fps[j]));
  }

  lemma StoredLength(scan: Scan, a: Assembly)
    requires OneBatchEach(scan, a)
    ensures |a.stored| == |Focused(scan.fingerprints)|
  {
  }

  lemma StoredHasCurrent(scan: Scan, a: Assembly, b: StoredBatch)
    requires OneBatchEach(scan, a) && b in a.stored
    ensures exists fp <- scan.fingerprints :: KeyOf(fp) == KeyOf(b.source)
    ensures IsFocused(b.source.extractor)
  {
    hide OneBatchEach, Focused, IsFocused;
    var i :| 0 <= i < |a.stored| && a.stored[i] == b;
    StoredLength(scan, a);
    StoredKey(scan, a, i);
    var fp := Focused(scan.fingerprints)[i];
    assert fp in Focused(scan.fingerprints);
    FocusedMembers(scan.fingerprints, fp);
  }

  lemma FocusedHasStored(scan: Scan, a: Assembly, fp: Fingerprint)
    requires OneBatchEach(scan, a) && fp in scan.fingerprints && IsFocused(fp.extractor)
    ensures exists b <- a.stored :: KeyOf(b.source) == KeyOf(fp)
  {
    hide OneBatchEach, Focused, IsFocused;
    FocusedMembers(scan.fingerprints, fp);
    StoredLength(scan, a);
    var i :| 0 <= i < |Focused(scan.fingerprints)| && Focused(scan.fingerprints)[i] == fp;
    StoredKey(scan, a, i);
    assert a.stored[i] in a.stored;
  }

  lemma StoredIsPickedOrPublished(
    scan: Scan, a: Assembly, rows: BatchTable, picked: seq<StoredBatch>, b: StoredBatch)
    requires OneBatchEach(scan, a) && Loaded(rows, scan.previous)
    requires forall i :: 0 <= i < |a.unpublished| ==> a.unpublished[i] < |a.stored|
    requires picked == Picked(a.stored, a.unpublished) && b in a.stored
    ensures b in picked || (RowKeyOf(b.source) in rows && rows[RowKeyOf(b.source)] == b)
  {
    hide OneBatchEach, Loaded;
    var i :| 0 <= i < |a.stored| && a.stored[i] == b;
    if i in a.unpublished {
      var m :| 0 <= m < |a.unpublished| && a.unpublished[m] == i;
      assert picked[m] == b;
    } else {
      SkippedBatchIsPublished(scan, rows, a, i);
    }
  }

  /** The assembly of any scan, over tables it was loaded from, meets the needs of publication. */
  lemma AssemblyFeedsPublication(
    scan: Scan, a: Assembly, table: Fingerprints, rows: BatchTable, delta: Delta)
    requires OneBatchEach(scan, a) && BatchRows(table, rows) && Loaded(rows, scan.previous)
    requires StrictlySorted(KeyOf, scan.fingerprints) && OneRowEach(scan.fingerprints)
    requires forall i :: 0 <= i < |a.unpublished| ==> a.unpublished[i] < |a.stored|
    requires delta.batches == Picked(a.stored, a.unpublished)
    ensures BatchPublication(table, rows, scan.fingerprints, a.stored, delta)
  {
    hide OneBatchEach, Focused, IsFocused, StrictlySorted, Loaded, OneRowEach;
    forall b | b in a.stored
      ensures exists fp <- scan.fingerprints :: KeyOf(fp) == KeyOf(b.source)
      ensures b in delta.batches || (RowKeyOf(b.source) in rows && rows[RowKeyOf(b.source)] == b)
    {
      StoredHasCurrent(scan, a, b);
      StoredIsPickedOrPublished(scan, a, rows, delta.batches, b);
    }
    forall x, y | x in a.stored && y in a.stored && RowKeyOf(x.source) == RowKeyOf(y.source)
      ensures x == y
    {
      var i :| 0 <= i < |a.stored| && a.stored[i] == x;
      var j :| 0 <= j < |a.stored| && a.stored[j] == y;
      StoredRowsDiffer(scan, a, i, j);
    }
    forall fp | fp in scan.fingerprints && RowKeyOf(fp) in rows
      ensures exists b <- a.stored :: KeyOf(b.source) == KeyOf(fp)
    {
      FocusedHasStored(scan, a, fp);
    }
    forall b | b in delta.batches
      ensures b in a.stored
    {
      var m :| 0 <= m < |delta.batches| && delta.batches[m] == b;
      assert a.stored[a.unpublished[m]] == b;
    }
  }

  // ---------------------------------------------------------------- a scan and its publication

  /** The tables before a scan, as far as publication depends on them. */
  ghost predicate Ready(
    lossy: (PathEncoding, Text) -> Text, table: Fingerprints, rows: BatchTable, previous: seq<Fingerprint>,
    scan: Scan)
  {
    && Tabulates(table, previous) && BatchRows(table, rows) && Loaded(rows, scan.previous)
    && Native(lossy, previous) && Native(lossy, scan.fingerprints)
    && StrictlySorted(KeyOf, scan.fingerprints)
  }

  /**
   Publishing the assembly of any scan, on fingerprints whose displays are computed from their bytes:
   the fingerprint table holds the kept rows, which are the current ones if and only if sizes agree,
   and the batch table holds the stored batches of the scan.
   */
  lemma PublishedTables(
    lossy: (PathEncoding, Text) -> Text, table: Fingerprints, rows: BatchTable,
    previous: seq<Fingerprint>, scan: Scan, changes: seq<Change>, a: Assembly, delta: Delta)
    requires Ready(lossy, table, rows, previous, scan) && OneBatchEach(scan, a)
    requires forall c :: c in changes <==>
               Changed(FingerprintMap(previous), FingerprintMap(scan.fingerprints), c)
    requires DeltaMatches(scan.fingerprints, changes, delta)
    requires forall i :: 0 <= i < |a.unpublished| ==> a.unpublished[i] < |a.stored|
    requires delta.batches == Picked(a.stored, a.unpublished)
    ensures Tabulates(PublishedFingerprints(table, delta),
                      KeptRows(FingerprintMap(previous), scan.fingerprints))
    ensures Tabulates(PublishedFingerprints(table, delta), scan.fingerprints)
            <==> SizesAgree(previous, scan.fingerprints)
    ensures TabulatesBatches(PublishedBatches(rows, delta), a.stored)
  {
    hide Tabulates, TabulatesBatches, OneRowEach, DisplaysAgree, SizesAgree, OneBatchEach, BatchRows, Loaded,
         Native, StrictlySorted, KeptRows, DeltaMatches, PublishedFingerprints, PublishedBatches;
    NativeDisplaysAgree(lossy, previous, scan.fingerprints);
    AgreeingPublication(table, previous, scan.fingerprints, changes, delta);
    FingerprintPublicationIsExact(table, previous, scan.fingerprints, changes, delta);
    AssemblyFeedsPublication(scan, a, table, rows, delta);
    BatchPublicationIsExact(table, rows, previous, scan.fingerprints, changes, a.stored, delta);
  }

  lemma {:induction false} MapMembers(fps: seq<Fingerprint>, k: Key)
    ensures k in FingerprintMap(fps) ==> exists fp <- fps :: KeyOf(fp) == k
  {
    if k in FingerprintMap(fps) {
      assert FingerprintMap(fps)[k] in fps;
    }
  }

  /** A planned change that is not a deletion has its current fingerprint. */
  lemma ChangedArtifactsExist(previous: seq<Fingerprint>, current: seq<Fingerprint>, c: Change)
    requires Changed(FingerprintMap(previous), FingerprintMap(current), c) && c.kind != Deleted
    ensures exists fp <- current :: KeyOf(fp) == c.key
  {
    MapMembers(current, c.key);
  }

  /** Plan, delta and store together: building the delta never fails, and the tables become current. */
  method PublishScan(
    ghost lossy: (PathEncoding, Text) -> Text, store: Store, previous: seq<Fingerprint>,
    scan: Scan, keys: seq<Key>, a: Assembly)
    returns (published: bool)
    requires Ready(lossy, store.fingerprints, store.batches, previous, scan) && OneBatchEach(scan, a)
    requires Visits(FingerprintMap(previous), FingerprintMap(scan.fingerprints), keys)
    modifies store
    ensures published
    ensures Tabulates(store.fingerprints, KeptRows(FingerprintMap(previous), scan.fingerprints))
    ensures Tabulates(store.fingerprints, scan.fingerprints) <==> SizesAgree(previous, scan.fingerprints)
    ensures TabulatesBatches(store.batches, a.stored)
  {
    assert StrictlySorted(KeyOf, scan.fingerprints);
    assert forall i :: 0 <= i < |a.unpublished| ==> a.unpublished[i] < |a.stored|;
    hide Ready, OneBatchEach, Tabulates, TabulatesBatches, SizesAgree, SortBy, StrictlySorted, KeptRows,
         DeltaMatches, PublishedFingerprints, PublishedBatches, FingerprintMap, Visits, Changed;
    var current := scan.fingerprints;
    var before, after := FingerprintMap(previous), FingerprintMap(current);
    var changes := PlanFrom(before, after, keys);
    PlanIsExact(before, after, keys);
    forall c | c in changes && c.kind != Deleted
      ensures exists fp <- current :: KeyOf(fp) == c.key
    {
      ChangedArtifactsExist(previous, current, c);
    }
    var delta := PlanDelta(current, changes, a.stored, a.unpublished);
    if delta.Err? {
      return false;
    }
    PublishedTables(lossy, store.fingerprints, store.batches, previous, scan, changes, a, delta.value);
    store.ApplyDelta(delta.value);
    return true;
  }
}
