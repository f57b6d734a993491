/** The sorted, duplicate-free fingerprint list a scan works on, for full and partial scans. */
module Discovery {
  import opened Basics
  import opened Artifacts

  /** What the dedup closure compares: everything in the key but the repository. */
  predicate SameArtifact(a: Fingerprint, b: Fingerprint) {
    a.checkout == b.checkout && a.path == b.path && a.extractor == b.extractor
  }

  /** The last fingerprint of a key, in list order. */
  ghost predicate LastOf(fps: seq<Fingerprint>, fp: Fingerprint) {
    var same := WithKey(KeyOf, fps, KeyOf(fp));
    same != [] && same[|same| - 1] == fp
  }

  lemma {:induction false} WithKeyAppend(fps: seq<Fingerprint>, fp: Fingerprint, k: Key)
    ensures WithKey(KeyOf, fps + [fp], k)
            == if KeyOf(fp) == k then WithKey(KeyOf, fps, k) + [fp] else WithKey(KeyOf, fps, k)
  {
    if fps == [] {
      assert [fp][1..] == [];
    } else {
      WithKeyAppend(fps[1..], fp, k);
      assert (fps + [fp])[1..] == fps[1..] + [fp];
    }
  }

  lemma {:induction false} WithKeyMembers(fps: seq<Fingerprint>, k: Key)
    ensures forall x <- WithKey(KeyOf, fps, k) :: x in fps && KeyOf(x) == k
    ensures (exists x <- fps :: KeyOf(x) == k) ==> WithKey(KeyOf, fps, k) != []
  {
    if fps != [] {
      WithKeyMembers(fps[1..], k);
      assert fps == [fps[0]] + fps[1..];
    }
  }

  /** The retained list holds exactly the last fingerprint of every key seen so far. */
  ghost predicate Retains(fps: seq<Fingerprint>, kept: seq<Fingerprint>) {
    && StrictlySorted(KeyOf, kept)
    && (forall x <- kept :: LastOf(fps, x))
    && (forall x <- fps :: exists y <- kept :: KeyOf(y) == KeyOf(x))
    && (kept != [] <==> fps != [])
    && (fps != [] ==> kept[|kept| - 1] == fps[|fps| - 1])
  }

  lemma LastAfterPush(fps: seq<Fingerprint>, fp: Fingerprint, x: Fingerprint)
    ensures LastOf(fps + [fp], fp)
    ensures KeyOf(x) != KeyOf(fp) && LastOf(fps, x) ==> LastOf(fps + [fp], x)
  {
    WithKeyAppend(fps, fp, KeyOf(fp));
    WithKeyAppend(fps, fp, KeyOf(x));
  }

  lemma LessIsDifferent(a: Key, b: Key)
    requires KeyLess(a, b)
    ensures a != b
  {
    KeyTotal(a, b);
  }

  lemma ReplaceLast(fps: seq<Fingerprint>, kept: seq<Fingerprint>, fp: Fingerprint)
    requires Retains(fps, kept) && fps != [] && KeyOf(fp) == KeyOf(fps[|fps| - 1])
    ensures Retains(fps + [fp], kept[..|kept| - 1] + [fp])
  {
    hide LastOf, KeyLess;
    var kept' := kept[..|kept| - 1] + [fp];
    var last := |kept| - 1;
    forall x | x in kept'
      ensures LastOf(fps + [fp], x)
    {
      LastAfterPush(fps, fp, x);
      if x != fp {
        var i :| 0 <= i < last && kept[i] == x;
        LessIsDifferent(KeyOf(kept[i]), KeyOf(kept[last]));
        assert x in kept;
      }
    }
    forall x | x in fps + [fp]
      ensures exists y <- kept' :: KeyOf(y) == KeyOf(x)
    {
      if KeyOf(x) == KeyOf(fp) {
        assert kept'[last] == fp;
      } else {
        assert x in fps;
        var y :| y in kept && KeyOf(y) == KeyOf(x);
        var i :| 0 <= i < |kept| && kept[i] == y;
        assert kept'[i] == y;
      }
    }
  }

  lemma NewIsLarger(fps: seq<Fingerprint>, kept: seq<Fingerprint>, fp: Fingerprint)
    requires Retains(fps, kept) && Sorted(KeyOf, fps + [fp])
    requires fps != [] ==> KeyOf(fp) != KeyOf(fps[|fps| - 1])
    ensures forall x <- kept :: KeyLess(KeyOf(x), KeyOf(fp))
  {
    hide CompareKey, LastOf;
    forall i | 0 <= i < |kept|
      ensures KeyLess(KeyOf(kept[i]), KeyOf(fp))
    {
      var all, last := fps + [fp], fps[|fps| - 1];
      assert all[|fps| - 1] == last && all[|fps|] == fp;
      assert !KeyLess(KeyOf(fp), KeyOf(last));
      KeyTotal(KeyOf(last), KeyOf(fp));
      if i < |kept| - 1 {
        assert KeyLess(KeyOf(kept[i]), KeyOf(kept[|kept| - 1]));
        KeyTotal(KeyOf(kept[i]), KeyOf(last));
        KeyTransitive(KeyOf(kept[i]), KeyOf(last), KeyOf(fp));
      }
    }
  }

  lemma PushSorted(kept: seq<Fingerprint>, fp: Fingerprint)
    requires StrictlySorted(KeyOf, kept) && forall x <- kept :: KeyLess(KeyOf(x), KeyOf(fp))
    ensures StrictlySorted(KeyOf, kept + [fp])
  {
    hide KeyLess;
  }

  lemma PushNew(fps: seq<Fingerprint>, kept: seq<Fingerprint>, fp: Fingerprint)
    requires Retains(fps, kept) && Sorted(KeyOf, fps + [fp])
    requires fps != [] ==> KeyOf(fp) != KeyOf(fps[|fps| - 1])
    ensures Retains(fps + [fp], kept + [fp])
  {
    NewIsLarger(fps, kept, fp);
    PushSorted(kept, fp);
    hide LastOf, KeyLess, Sorted, StrictlySorted;
    forall x | x in kept + [fp]
      ensures LastOf(fps + [fp], x)
    {
      LastAfterPush(fps, fp, x);
      if x in kept {
        LessIsDifferent(KeyOf(x), KeyOf(fp));
      }
    }
    forall x | x in fps + [fp]
      ensures exists y <- kept + [fp] :: KeyOf(y) == KeyOf(x)
    {
      if x in fps {
        var y :| y in kept && KeyOf(y) == KeyOf(x);
        assert y in kept + [fp];
      } else {
        assert fp in kept + [fp];
      }
    }
  }

  /** `dedup_by` with the swap: a later duplicate takes the place of the retained one. */
  method DedupLastWins(sorted: seq<Fingerprint>) returns (kept: seq<Fingerprint>)
    requires Sorted(KeyOf, sorted) && OneRepoPerCheckout(sorted)
    ensures Retains(sorted, kept)
  {
    hide Retains, Sorted;
    kept := [];
    assert Retains([], []) by { RetainsNothing(); }
    assert sorted[..0] == [];
    var i := 0;
    while i < |sorted|
      invariant 0 <= i <= |sorted| && Retains(sorted[..i], kept) && (i > 0 ==> kept != [])
      invariant i > 0 ==> kept[|kept| - 1] == sorted[i - 1]
    {
      var fp := sorted[i];
      assert sorted[..i + 1] == sorted[..i] + [fp];
      SortedPrefix(sorted, i + 1);
      if kept != [] && i > 0 && SameArtifact(fp, kept[|kept| - 1]) {
        assert fp in sorted && sorted[i - 1] in sorted;
        ReplaceLast(sorted[..i], kept, fp);
        kept := kept[..|kept| - 1] + [fp];
      } else {
        PushNew(sorted[..i], kept, fp);
        kept := kept + [fp];
      }
      i := i + 1;
    }
    assert sorted[..i] == sorted;
  }

  lemma RetainsNothing()
    ensures Retains([], [])
  {
  }

  lemma SortedPrefix(fps: seq<Fingerprint>, n: nat)
    requires Sorted(KeyOf, fps) && n <= |fps|
    ensures Sorted(KeyOf, fps[..n])
  {
  }

  /**
   Stable sort, then last-wins dedup: strictly sorted, and for every artifact the fingerprint of
   the last request that produced it.
   */
  method SortAndDedup(found: seq<Fingerprint>) returns (fps: seq<Fingerprint>)
    requires OneRepoPerCheckout(found)
    ensures StrictlySorted(KeyOf, fps)
    ensures forall x :: x in fps <==> LastOf(found, x)
  {
    hide WithKey;
    var sorted := StableSort(KeyOf, found);
    SortSorts(KeyOf, found);
    SameMembers(sorted, found);
    fps := DedupLastWins(sorted);
    forall x
      ensures x in fps <==> LastOf(found, x)
    {
      SortIsStable(KeyOf, found, KeyOf(x));
      if LastOf(found, x) {
        WithKeyMembers(found, KeyOf(x));
        assert x in sorted;
        var y :| y in fps && KeyOf(y) == KeyOf(x);
        assert LastOf(sorted, y);
      }
    }
  }

  // ---------------------------------------------------------------- partial scans

  function Unselected(previous: seq<Fingerprint>, selected: set<Text>): seq<Fingerprint> {
    if previous == [] then [] else
      var last := previous[|previous| - 1];
      Unselected(previous[..|previous| - 1], selected)
      + (if last.repo in selected then [] else [last])
  }

  /** The list of a partial scan: discovered artifacts plus the previous ones of the repositories
      whose id was not selected, sorted. */
  function PartialMerge(
    discovered: seq<Fingerprint>, previous: seq<Fingerprint>, selected: set<Text>): seq<Fingerprint>
  {
    StableSort(KeyOf, discovered + Unselected(previous, selected))
  }

  lemma {:induction false} UnselectedMembers(previous: seq<Fingerprint>, selected: set<Text>)
    ensures forall x :: x in Unselected(previous, selected) <==> x in previous && x.repo !in selected
    ensures DistinctKeys(KeyOf, previous) ==> DistinctKeys(KeyOf, Unselected(previous, selected))
  {
    if previous != [] {
      var init, last := previous[..|previous| - 1], previous[|previous| - 1];
      UnselectedMembers(init, selected);
      assert previous == init + [last];
      if DistinctKeys(KeyOf, previous) {
        assert DistinctKeys(KeyOf, init);
        forall x | x in Unselected(init, selected)
          ensures KeyOf(x) != KeyOf(last)
        {
          assert x in init;
          var i :| 0 <= i < |init| && init[i] == x;
          assert KeyOf(previous[i]) != KeyOf(previous[|init|]);
        }
      }
    }
  }

  /** A partial scan also works on a strictly sorted list, with exactly the expected members. */
  lemma PartialMergeIsExact(
    discovered: seq<Fingerprint>, previous: seq<Fingerprint>, selected: set<Text>)
    requires StrictlySorted(KeyOf, discovered) && DistinctKeys(KeyOf, previous)
    requires forall x <- discovered :: x.repo in selected
    ensures StrictlySorted(KeyOf, PartialMerge(discovered, previous, selected))
    ensures forall x :: x in PartialMerge(discovered, previous, selected)
              <==> x in discovered || (x in previous && x.repo !in selected)
  {
    var rest := Unselected(previous, selected);
    UnselectedMembers(previous, selected);
    forall i, j | 0 <= i < j < |discovered + rest|
      ensures KeyOf((discovered + rest)[i]) != KeyOf((discovered + rest)[j])
    {
      if j < |discovered| {
        KeyTotal(KeyOf(discovered[i]), KeyOf(discovered[j]));
      } else if i < |discovered| {
        assert discovered[i] in discovered && rest[j - |discovered|] in rest;
      }
    }
    SortDistinct(KeyOf, discovered + rest);
    SortSorts(KeyOf, discovered + rest);
    SameMembers(StableSort(KeyOf, discovered + rest), discovered + rest);
  }

  /**
   A partial scan of an otherwise unchanged workspace gives the list of a full scan if and only
   if no artifact of an unselected alias carries a selected repository id.
   */
  lemma PartialScanEqualsFullScan(
    full: seq<Fingerprint>, discovered: seq<Fingerprint>, previous: seq<Fingerprint>,
    selected: set<Text>, chosen: Fingerprint -> bool)
    requires StrictlySorted(KeyOf, full) && StrictlySorted(KeyOf, discovered) && DistinctKeys(KeyOf, previous)
    requires forall x :: x in discovered <==> x in full && chosen(x)
    requires forall x :: chosen(x) && (x in full || x in previous) ==> x.repo in selected
    requires forall x :: !chosen(x) ==> (x in full <==> x in previous)
    ensures PartialMerge(discovered, previous, selected) == full
            <==> forall x <- full :: !chosen(x) ==> x.repo !in selected
  {
    PartialMergeIsExact(discovered, previous, selected);
    var merged := PartialMerge(discovered, previous, selected);
    if forall x <- full :: !chosen(x) ==> x.repo !in selected {
      StrictlySortedUnique(KeyOf, merged, full);
    }
  }
}
