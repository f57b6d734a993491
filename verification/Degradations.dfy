/** The bounded degradation list a scan reports, and why caches cannot change it. */
module Degradations {
  import opened Basics
  import opened Artifacts
  import opened Extractors
  import opened FocusedExtraction
  import opened FocusedAssembly
  import opened WarmScans

  const MAX_SCAN_DEGRADATIONS := 25

  /** Orders plain text with the key order, through its first component. */
  function TextKey(t: Text): Key {
    Key(t, [], NativePath(UnixBytes, [], []), [])
  }

  /** `Vec::dedup`: drops each element equal to the one kept before it. */
  function Dedup(xs: seq<Text>): seq<Text> {
    if |xs| <= 1 then xs
    else if xs[0] == xs[1] then Dedup(xs[1..])
    else [xs[0]] + Dedup(xs[1..])
  }

  /** `finalize_scan_degradations`: total count, and the list cut to its bound with a summary. */
  function Finalize(xs: seq<Text>, omitted: nat -> Text): (r: (nat, seq<Text>))
    ensures |r.1| <= MAX_SCAN_DEGRADATIONS
  {
    var kept := Dedup(StableSort(TextKey, xs));
    if |kept| > MAX_SCAN_DEGRADATIONS then
      (|kept|, kept[..MAX_SCAN_DEGRADATIONS - 1] + [omitted(|kept| - (MAX_SCAN_DEGRADATIONS - 1))])
    else (|kept|, kept)
  }

  lemma {:induction false} DedupSorted(xs: seq<Text>)
    requires Sorted(TextKey, xs)
    ensures StrictlySorted(TextKey, Dedup(xs))
    ensures forall x :: x in Dedup(xs) <==> x in xs
  {
    if |xs| > 1 {
      assert xs == [xs[0]] + xs[1..];
      DedupSorted(xs[1..]);
      if xs[0] != xs[1] {
        var rest := Dedup(xs[1..]);
        forall j | 0 <= j < |rest|
          ensures KeyLess(TextKey(xs[0]), TextKey(rest[j]))
        {
          assert rest[j] in xs[1..];
          var m :| 0 <= m < |xs[1..]| && xs[1..][m] == rest[j];
          KeyTotal(TextKey(xs[0]), TextKey(xs[1]));
          KeyTotal(TextKey(xs[1]), TextKey(xs[1]));
          assert m > 0 ==> !KeyLess(TextKey(xs[m + 1]), TextKey(xs[1]));
          KeyTransitive(TextKey(xs[0]), TextKey(xs[1]), TextKey(rest[j]));
        }
      }
    }
  }

  lemma KeptMembers(xs: seq<Text>)
    ensures StrictlySorted(TextKey, Dedup(StableSort(TextKey, xs)))
    ensures forall x :: x in Dedup(StableSort(TextKey, xs)) <==> x in xs
  {
    SortSorts(TextKey, xs);
    DedupSorted(StableSort(TextKey, xs));
    hide Sorted, StrictlySorted, Dedup, StableSort;
    var sorted := StableSort(TextKey, xs);
    assert forall x :: x in sorted <==> x in multiset(sorted);
    assert forall x :: x in xs <==> x in multiset(xs);
  }

  /** The reported list depends only on which degradations occurred, not on order or repeats. */
  lemma FinalizeDependsOnTheSet(xs: seq<Text>, ys: seq<Text>, omitted: nat -> Text)
    requires forall x :: x in xs <==> x in ys
    ensures Finalize(xs, omitted) == Finalize(ys, omitted)
  {
    KeptMembers(xs);
    KeptMembers(ys);
    hide Dedup, StrictlySorted, StableSort;
    StrictlySortedUnique(TextKey, Dedup(StableSort(TextKey, xs)), Dedup(StableSort(TextKey, ys)));
  }

  /** What is reported: the number of distinct degradations and, in order, all of them, or the first
      ones and a line for the number left out. */
  lemma FinalizeIsExact(xs: seq<Text>, omitted: nat -> Text, sorted: seq<Text>)
    requires StrictlySorted(TextKey, sorted) && forall x :: x in sorted <==> x in xs
    ensures var (count, list) := Finalize(xs, omitted);
            && count == |sorted|
            && (count <= MAX_SCAN_DEGRADATIONS ==> list == sorted)
            && (count > MAX_SCAN_DEGRADATIONS ==>
                  && |list| == MAX_SCAN_DEGRADATIONS
                  && list[..MAX_SCAN_DEGRADATIONS - 1] == sorted[..MAX_SCAN_DEGRADATIONS - 1]
                  && list[MAX_SCAN_DEGRADATIONS - 1] == omitted(|sorted| - (MAX_SCAN_DEGRADATIONS - 1)))
  {
    KeptMembers(xs);
    hide Dedup, StrictlySorted, StableSort;
    StrictlySortedUnique(TextKey, Dedup(StableSort(TextKey, xs)), sorted);
  }

  function Formatted(notes: seq<Note>, format: Note -> Text): seq<Text> {
    seq(|notes|, i requires 0 <= i < |notes| => format(notes[i]))
  }

  /** A successful warm scan reports the degradations of the cold one, next to any others. */
  lemma WarmDegradationsAreCold(
    w: World, scan: Scan, a: Assembly, format: Note -> Text, others: seq<Text>, omitted: nat -> Text)
    requires LooksCold(w, scan, a)
    ensures var stored := AllStoredNotes(w, scan.budget, a.stored);
            && stored.Ok?
            && Finalize(Formatted(a.notes + stored.value, format) + others, omitted)
               == Finalize(Formatted(ColdNotes(w, scan, Focused(scan.fingerprints)), format)
                           + others, omitted)
  {
    hide Cold, Reusable, AllStoredNotes, ColdNotes, Focused, ColdOutputs, WithDocuments;
    var warm := a.notes + AllStoredNotes(w, scan.budget, a.stored).value;
    var cold := ColdNotes(w, scan, Focused(scan.fingerprints));
    SameTexts(warm, cold, format);
    SameTexts(cold, warm, format);
    FinalizeDependsOnTheSet(Formatted(warm, format) + others, Formatted(cold, format) + others, omitted);
  }

  lemma SameTexts(xs: seq<Note>, ys: seq<Note>, format: Note -> Text)
    requires forall n :: n in xs ==> n in ys
    ensures forall t :: t in Formatted(xs, format) ==> t in Formatted(ys, format)
  {
    forall t | t in Formatted(xs, format)
      ensures t in Formatted(ys, format)
    {
      var i :| 0 <= i < |xs| && format(xs[i]) == t;
      assert xs[i] in ys;
      var j :| 0 <= j < |ys| && ys[j] == xs[i];
      assert Formatted(ys, format)[j] == t;
    }
  }
}
