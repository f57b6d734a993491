/**
 Incremental publication: the plan compares two fingerprint lists, the delta turns it into rows,
 and the store applies upserts and then deletions. The store's key leaves out the display path.
 */
module ArtifactDelta {
  import opened Basics
  import opened Artifacts
  import opened Extractors

  // ---------------------------------------------------------------- the plan

  datatype ChangeKind = Added | Modified | Deleted

  datatype Change = Change(key: Key, kind: ChangeKind)

  function ChangeKey(c: Change): Key { c.key }

  /** The keys that occur at or after a position. */
  function KeysFrom(fps: seq<Fingerprint>, from: nat): set<Key> {
    set i | from <= i < |fps| :: KeyOf(fps[i])
  }

  lemma KeysOfPrefix(fps: seq<Fingerprint>)
    requires fps != []
    ensures var init := fps[..|fps| - 1];
            forall i :: 0 <= i <= |init| ==>
              KeysFrom(fps, i) == KeysFrom(init, i) + {KeyOf(fps[|fps| - 1])}
  {
  }

  /** `fingerprint_map`: the last fingerprint of each key. */
  function FingerprintMap(fps: seq<Fingerprint>): (m: map<Key, Fingerprint>)
    ensures forall k :: k in m ==> m[k] in fps && KeyOf(m[k]) == k
    ensures forall fp <- fps :: KeyOf(fp) in m
    ensures forall i :: 0 <= i < |fps| && KeyOf(fps[i]) !in KeysFrom(fps, i + 1) ==>
              m[KeyOf(fps[i])] == fps[i]
  {
    if fps == [] then map[] else
      var last := fps[|fps| - 1];
      assert fps == fps[..|fps| - 1] + [last];
      KeysOfPrefix(fps);
      FingerprintMap(fps[..|fps| - 1])[KeyOf(last) := last]
  }

  predicate Changed(
    previous: map<Key, Fingerprint>, current: map<Key, Fingerprint>, c: Change)
  {
    match c.kind
    case Added => c.key in current && c.key !in previous
    case Modified => c.key in current && c.key in previous
                     && previous[c.key].contentHash != current[c.key].contentHash
    case Deleted => c.key in previous && c.key !in current
  }

  /** What happened to one key; the source decides it from both maps. */
  function ChangeOf(previous: map<Key, Fingerprint>, current: map<Key, Fingerprint>, k: Key)
    : Option<Change>
  {
    if k in current && k !in previous then Some(Change(k, Added))
    else if k in current && previous[k].contentHash != current[k].contentHash then
      Some(Change(k, Modified))
    else if k in previous && k !in current then Some(Change(k, Deleted))
    else None
  }

  /** The changes of a set of keys visited in some order: at most one change per key. */
  function ChangesOf(
    previous: map<Key, Fingerprint>, current: map<Key, Fingerprint>, keys: seq<Key>): seq<Change>
  {
    if keys == [] then [] else
      var change := ChangeOf(previous, current, keys[|keys| - 1]);
      ChangesOf(previous, current, keys[..|keys| - 1])
      + (if change.Some? then [change.value] else [])
  }

  /** The keys of both maps in some order, as hash-map iteration and chaining visit them. */
  ghost predicate Visits(
    previous: map<Key, Fingerprint>, current: map<Key, Fingerprint>, keys: seq<Key>)
  {
    && (forall k :: k in keys <==> k in previous || k in current)
    && (forall i, j :: 0 <= i < j < |keys| ==> keys[i] != keys[j])
  }

  function PlanFrom(
    previous: map<Key, Fingerprint>, current: map<Key, Fingerprint>, keys: seq<Key>): seq<Change>
  {
    StableSort(ChangeKey, ChangesOf(previous, current, keys))
  }

  lemma ChangeOfIsChanged(previous: map<Key, Fingerprint>, current: map<Key, Fingerprint>, k: Key)
    ensures forall c :: ChangeOf(previous, current, k) == Some(c)
                        <==> c.key == k && Changed(previous, current, c)
  {
  }

  lemma {:induction false} ChangesMembers(
    previous: map<Key, Fingerprint>, current: map<Key, Fingerprint>, keys: seq<Key>)
    requires forall i, j :: 0 <= i < j < |keys| ==> keys[i] != keys[j]
    ensures forall c :: c in ChangesOf(previous, current, keys)
              <==> c.key in keys && Changed(previous, current, c)
    ensures DistinctKeys(ChangeKey, ChangesOf(previous, current, keys))
  {
    hide Changed, ChangeOf;
    if keys != [] {
      var init, last := keys[..|keys| - 1], keys[|keys| - 1];
      ChangesMembers(previous, current, init);
      ChangeOfIsChanged(previous, current, last);
      assert keys == init + [last];
      assert last !in init;
      var before := ChangesOf(previous, current, init);
      assert forall i :: 0 <= i < |before| ==> before[i] in before;
    }
  }

  /** The plan lists exactly the added, modified and deleted artifacts, strictly sorted by key. */
  lemma PlanIsExact(
    previous: map<Key, Fingerprint>, current: map<Key, Fingerprint>, keys: seq<Key>)
    requires Visits(previous, current, keys)
    ensures StrictlySorted(ChangeKey, PlanFrom(previous, current, keys))
    ensures forall c :: c in PlanFrom(previous, current, keys) <==> Changed(previous, current, c)
  {
    ChangesMembers(previous, current, keys);
    hide ChangesOf, StableSort, StrictlySorted;
    SortDistinct(ChangeKey, ChangesOf(previous, current, keys));
  }

  /** Two visiting orders give one plan. */
  lemma PlanIgnoresVisitingOrder(
    previous: map<Key, Fingerprint>, current: map<Key, Fingerprint>, a: seq<Key>, b: seq<Key>)
    requires Visits(previous, current, a) && Visits(previous, current, b)
    ensures PlanFrom(previous, current, a) == PlanFrom(previous, current, b)
  {
    PlanIsExact(previous, current, a);
    PlanIsExact(previous, current, b);
    StrictlySortedUnique(ChangeKey, PlanFrom(previous, current, a), PlanFrom(previous, current, b));
  }

  // ---------------------------------------------------------------- the planned delta

  /** `binary_search_by` over the sorted fingerprints. */
  method FindArtifact(fps: seq<Fingerprint>, key: Key) returns (r: Option<nat>)
    requires StrictlySorted(KeyOf, fps)
    ensures r.Some? ==> r.value < |fps| && KeyOf(fps[r.value]) == key
    ensures r.None? ==> forall fp <- fps :: KeyOf(fp) != key
  {
    var lo, hi := 0, |fps|;
    while lo < hi
      invariant 0 <= lo <= hi <= |fps|
      invariant forall i :: 0 <= i < lo ==> KeyOf(fps[i]) != key
      invariant forall i :: hi <= i < |fps| ==> KeyOf(fps[i]) != key
    {
      var mid := (lo + hi) / 2;
      KeyTotal(KeyOf(fps[mid]), key);
      match CompareKey(KeyOf(fps[mid]), key) {
        case Equal => return Some(mid);
        case Less =>
          forall i | 0 <= i < mid
            ensures KeyOf(fps[i]) != key
          {
            assert KeyLess(KeyOf(fps[i]), KeyOf(fps[mid]));
            KeyTotal(KeyOf(fps[i]), key);
            KeyTotal(KeyOf(fps[i]), KeyOf(fps[mid]));
          }
          lo := mid + 1;
        case Greater =>
          forall i | mid < i < |fps|
            ensures KeyOf(fps[i]) != key
          {
            assert KeyLess(KeyOf(fps[mid]), KeyOf(fps[i]));
            KeyTotal(KeyOf(fps[i]), key);
            KeyTotal(KeyOf(fps[mid]), KeyOf(fps[i]));
          }
          hi := mid;
      }
    }
    return None;
  }

  datatype Delta = Delta(fingerprints: seq<Fingerprint>, batches: seq<StoredBatch>, removed: seq<Key>)

  ghost predicate DeltaMatches(fps: seq<Fingerprint>, changes: seq<Change>, delta: Delta) {
    && (forall k :: k in delta.removed <==> exists c <- changes :: c.kind == Deleted && c.key == k)
    && (forall fp :: fp in delta.fingerprints
          <==> fp in fps && exists c <- changes :: c.kind != Deleted && c.key == KeyOf(fp))
  }

  function Picked(stored: seq<StoredBatch>, indices: seq<nat>): seq<StoredBatch>
    requires forall i :: 0 <= i < |indices| ==> indices[i] < |stored|
  {
    seq(|indices|, i requires 0 <= i < |indices| => stored[indices[i]])
  }

  /** `PlannedArtifactDelta::new`: on sorted distinct fingerprints every changed artifact is found. */
  method PlanDelta(
    fps: seq<Fingerprint>, changes: seq<Change>, stored: seq<StoredBatch>, unpublished: seq<nat>)
    returns (r: Result<Delta, Key>)
    requires StrictlySorted(KeyOf, fps)
    requires forall i :: 0 <= i < |unpublished| ==> unpublished[i] < |stored|
    ensures r.Ok? <==> forall c <- changes :: c.kind != Deleted ==> exists fp <- fps :: KeyOf(fp) == c.key
    ensures r.Ok? ==> DeltaMatches(fps, changes, r.value)
    ensures r.Ok? ==> r.value.batches == Picked(stored, unpublished)
  {
    var upserted: seq<Fingerprint>, removed: seq<Key> := [], [];
    var i := 0;
    while i < |changes|
      invariant 0 <= i <= |changes|
      invariant DeltaMatches(fps, changes[..i], Delta(upserted, [], removed))
      invariant forall c <- changes[..i] :: c.kind != Deleted ==> exists fp <- fps :: KeyOf(fp) == c.key
    {
      var change := changes[i];
      assert changes[..i + 1] == changes[..i] + [change];
      if change.kind == Deleted {
        AddRemoved(fps, changes[..i], upserted, removed, change);
        removed := removed + [change.key];
      } else {
        var index := FindArtifact(fps, change.key);
        if index.None? {
          assert change in changes;
          return Err(change.key);
        }
        AddUpsert(fps, changes[..i], upserted, removed, change, index.value);
        upserted := upserted + [fps[index.value]];
      }
      i := i + 1;
    }
    assert changes[..i] == changes;
    return Ok(Delta(upserted, Picked(stored, unpublished), removed));
  }

  lemma AddRemoved(
    fps: seq<Fingerprint>, changes: seq<Change>, upserted: seq<Fingerprint>, removed: seq<Key>,
    change: Change)
    requires DeltaMatches(fps, changes, Delta(upserted, [], removed)) && change.kind == Deleted
    ensures DeltaMatches(fps, changes + [change], Delta(upserted, [], removed + [change.key]))
  {
    var all := changes + [change];
    assert forall c :: c in all <==> c in changes || c == change;
    forall k
      ensures k in removed + [change.key] <==> exists c <- all :: c.kind == Deleted && c.key == k
    {
      if k == change.key {
        assert change in all;
      }
    }
  }

  lemma AddUpsert(
    fps: seq<Fingerprint>, changes: seq<Change>, upserted: seq<Fingerprint>, removed: seq<Key>,
    change: Change, index: nat)
    requires StrictlySorted(KeyOf, fps) && index < |fps| && KeyOf(fps[index]) == change.key
    requires DeltaMatches(fps, changes, Delta(upserted, [], removed)) && change.kind != Deleted
    ensures DeltaMatches(fps, changes + [change], Delta(upserted + [fps[index]], [], removed))
  {
    var all := changes + [change];
    assert forall c :: c in all <==> c in changes || c == change;
    forall fp
      ensures fp in upserted + [fps[index]]
              <==> fp in fps && exists c <- all :: c.kind != Deleted && c.key == KeyOf(fp)
    {
      if fp == fps[index] {
        assert change in all;
      } else if fp in fps && KeyOf(fp) == change.key {
        SameKeySameElement(KeyOf, fps, fp, fps[index]);
      }
    }
  }
}
