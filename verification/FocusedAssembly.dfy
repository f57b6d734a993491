/** The ordered merge after the parallel stage, with its claim-once slots. */
module FocusedAssembly {
  import opened Basics
  import opened Artifacts
  import opened Extractors
  import opened FocusedExtraction
  import Fence = FailureFence

  type JobResult = Result<seq<Outcome>, Error>

  /** Persisted batches with whether each is already published, outputs and notes in merge order. */
  datatype Assembly = Assembly(
    stored: seq<StoredBatch>, unpublished: seq<nat>, outputs: seq<Output>, notes: seq<Note>)

  function Runs(w: World, scan: Scan, jobs: seq<Job>): seq<JobResult> {
    seq(|jobs|, i requires 0 <= i < |jobs| => RunJob(w, scan, jobs[i]))
  }

  function OutcomesOf(r: Option<JobResult>): seq<Outcome> {
    if r.Some? && r.value.Ok? then r.value.value else []
  }

  /** Outcomes of the successful jobs, in job order. */
  function Merged(observed: seq<Option<JobResult>>): seq<Outcome> {
    if observed == [] then [] else
      Merged(observed[..|observed| - 1]) + OutcomesOf(observed[|observed| - 1])
  }

  function OutputsOf(os: seq<Outcome>): seq<Output> {
    if os == [] then [] else
      var last := os[|os| - 1];
      OutputsOf(os[..|os| - 1]) + (if last.output.Some? then [last.output.value] else [])
  }

  function NotesOf(os: seq<Outcome>): seq<Note> {
    if os == [] then [] else NotesOf(os[..|os| - 1]) + os[|os| - 1].notes
  }

  function FreshOf(os: seq<Outcome>): seq<StoredBatch> {
    if os == [] then [] else
      var last := os[|os| - 1];
      FreshOf(os[..|os| - 1]) + (if last.slot.Fresh? then [last.slot.batch] else [])
  }

  function StoredOf(scan: Scan, os: seq<Outcome>): seq<(StoredBatch, bool)>
    requires forall o <- os :: InRange(scan, o.slot)
  {
    seq(|os|, i requires 0 <= i < |os| => (Resolve(scan, os[i].slot), os[i].slot.Previous?))
  }

  /** No cached batch is claimed by two outcomes. */
  ghost predicate ClaimsOnce(scan: Scan, os: seq<Outcome>) {
    && (forall o <- os :: InRange(scan, o.slot))
    && (forall i, j :: 0 <= i < j < |os| && !os[i].slot.Fresh? ==> os[i].slot != os[j].slot)
  }

  lemma {:induction false} MergedPrefix(observed: seq<Option<JobResult>>, n: nat)
    requires n <= |observed|
    ensures Merged(observed[..n]) <= Merged(observed)
    decreases |observed|
  {
    if n < |observed| {
      var init := observed[..|observed| - 1];
      MergedPrefix(init, n);
      assert init[..n] == observed[..n];
    } else {
      assert observed[..n] == observed;
    }
  }

  lemma {:induction false} FirstErrorAppend(observed: seq<Option<JobResult>>, r: Option<JobResult>)
    ensures Fence.FirstError(observed + [r]) ==
            (if Fence.FirstError(observed).Some? then Fence.FirstError(observed)
             else if r.Some? && r.value.Err? then Some(r.value.error) else None)
  {
    if observed == [] {
      assert [r][1..] == [];
    } else {
      FirstErrorAppend(observed[1..], r);
      assert (observed + [r])[1..] == observed[1..] + [r];
    }
  }

  /** The slot vectors after some outcomes: a slot is empty only if one of them took it. */
  ghost predicate PreviousAfter(scan: Scan, slots: seq<Option<StoredBatch>>, os: seq<Outcome>) {
    && |slots| == |scan.previous|
    && forall k :: 0 <= k < |slots| ==>
         slots[k] == Some(scan.previous[k])
         || (slots[k] == None && exists o <- os :: o.slot == Previous(k))
  }

  ghost predicate CheckpointedAfter(scan: Scan, slots: seq<Option<StoredBatch>>, os: seq<Outcome>) {
    && |slots| == |scan.checkpointed|
    && forall k :: 0 <= k < |slots| ==>
         slots[k] == Some(scan.checkpointed[k])
         || (slots[k] == None && exists o <- os :: o.slot == Checkpointed(k))
  }

  lemma NotYetClaimed(scan: Scan, before: seq<Outcome>, outcomes: seq<Outcome>, i: nat)
    requires i < |outcomes| && ClaimsOnce(scan, before + outcomes)
    ensures InRange(scan, outcomes[i].slot)
    ensures !outcomes[i].slot.Fresh? ==>
              forall x <- before + outcomes[..i] :: x.slot != outcomes[i].slot
  {
    var full, done := before + outcomes, before + outcomes[..i];
    assert full[|done|] == outcomes[i];
    assert forall m :: 0 <= m < |done| ==> done[m] == full[m];
  }

  lemma TakeSlot(
    scan: Scan, previous: seq<Option<StoredBatch>>, checkpointed: seq<Option<StoredBatch>>,
    done: seq<Outcome>, o: Outcome)
    requires PreviousAfter(scan, previous, done) && CheckpointedAfter(scan, checkpointed, done)
    requires InRange(scan, o.slot) && (!o.slot.Fresh? ==> forall x <- done :: x.slot != o.slot)
    ensures match o.slot
            case Fresh(_) =>
              PreviousAfter(scan, previous, done + [o]) && CheckpointedAfter(scan, checkpointed, done + [o])
            case Previous(k) =>
              && previous[k] == Some(Resolve(scan, o.slot))
              && PreviousAfter(scan, previous[k := None], done + [o])
              && CheckpointedAfter(scan, checkpointed, done + [o])
            case Checkpointed(k) =>
              && checkpointed[k] == Some(Resolve(scan, o.slot))
              && PreviousAfter(scan, previous, done + [o])
              && CheckpointedAfter(scan, checkpointed[k := None], done + [o])
  {
    assert forall x :: x in done + [o] <==> x in done || x == o;
  }

  lemma CollectStep(scan: Scan, os: seq<Outcome>, o: Outcome)
    requires forall x <- os + [o] :: InRange(scan, x.slot)
    ensures forall x <- os :: InRange(scan, x.slot)
    ensures InRange(scan, o.slot)
    ensures StoredOf(scan, os + [o]) == StoredOf(scan, os) + [(Resolve(scan, o.slot), o.slot.Previous?)]
    ensures NotesOf(os + [o]) == NotesOf(os) + o.notes
    ensures OutputsOf(os + [o]) == OutputsOf(os) + (if o.output.Some? then [o.output.value] else [])
    ensures FreshOf(os + [o]) == FreshOf(os) + (if o.slot.Fresh? then [o.slot.batch] else [])
  {
    assert (os + [o])[..|os|] == os;
    assert forall x <- os :: x in os + [o];
    assert o in os + [o];
  }

  /** The claim-once merge of one successful job; `claimed` is false only for a double claim. */
  method MergeJob(
    scan: Scan, outcomes: seq<Outcome>, ghost before: seq<Outcome>,
    previous: seq<Option<StoredBatch>>, checkpointed: seq<Option<StoredBatch>>)
    returns (claimed: bool, previous': seq<Option<StoredBatch>>,
             checkpointed': seq<Option<StoredBatch>>, stored: seq<(StoredBatch, bool)>,
             outputs: seq<Output>, notes: seq<Note>, extracted: seq<StoredBatch>)
    requires ClaimsOnce(scan, before + outcomes)
    requires PreviousAfter(scan, previous, before)
    requires CheckpointedAfter(scan, checkpointed, before)
    ensures claimed
    ensures PreviousAfter(scan, previous', before + outcomes)
    ensures CheckpointedAfter(scan, checkpointed', before + outcomes)
    ensures (forall o <- outcomes :: InRange(scan, o.slot)) && stored == StoredOf(scan, outcomes)
    ensures outputs == OutputsOf(outcomes) && notes == NotesOf(outcomes)
    ensures extracted == FreshOf(outcomes)
  {
    previous', checkpointed', stored, outputs, notes, extracted := previous, checkpointed, [], [], [], [];
    assert forall o <- outcomes :: o in before + outcomes;
    assert before + outcomes[..0] == before;
    claimed := true;
    var i := 0;
    while i < |outcomes|
      invariant 0 <= i <= |outcomes| && claimed
      invariant PreviousAfter(scan, previous', before + outcomes[..i])
      invariant CheckpointedAfter(scan, checkpointed', before + outcomes[..i])
      invariant stored == StoredOf(scan, outcomes[..i])
      invariant outputs == OutputsOf(outcomes[..i]) && notes == NotesOf(outcomes[..i])
      invariant extracted == FreshOf(outcomes[..i])
    {
      var o := outcomes[i];
      ghost var done := before + outcomes[..i];
      NotYetClaimed(scan, before, outcomes, i);
      TakeSlot(scan, previous', checkpointed', done, o);
      assert |previous'| == |scan.previous| && |checkpointed'| == |scan.checkpointed|;
      CollectStep(scan, outcomes[..i], o);
      hide PreviousAfter, CheckpointedAfter, ClaimsOnce, StoredOf, NotesOf, OutputsOf, FreshOf;
      assert outcomes[..i + 1] == outcomes[..i] + [o];
      assert before + outcomes[..i + 1] == done + [o];
      var taken: Option<StoredBatch>;
      match o.slot {
        case Fresh(batch) =>
          extracted := extracted + [batch];
          taken := Some(batch);
        case Previous(k) =>
          taken := previous'[k];
          previous' := previous'[k := None];
        case Checkpointed(k) =>
          taken := checkpointed'[k];
          checkpointed' := checkpointed'[k := None];
      }
      assert taken == Some(Resolve(scan, o.slot));
      if taken.None? {
        claimed := false;
        break;
      }
      stored := stored + [(taken.value, o.slot.Previous?)];
      notes := notes + o.notes;
      if o.output.Some? {
        outputs := outputs + [o.output.value];
      }
      i := i + 1;
    }
    assert outcomes[..i] == outcomes;
  }

  lemma {:induction false} OutputsAppend(os: seq<Outcome>, more: seq<Outcome>)
    ensures OutputsOf(os + more) == OutputsOf(os) + OutputsOf(more)
    decreases |more|
  {
    if more == [] {
      assert os + more == os;
    } else {
      assert (os + more)[..|os + more| - 1] == os + more[..|more| - 1];
      OutputsAppend(os, more[..|more| - 1]);
    }
  }

  lemma {:induction false} NotesAppend(os: seq<Outcome>, more: seq<Outcome>)
    ensures NotesOf(os + more) == NotesOf(os) + NotesOf(more)
    decreases |more|
  {
    if more == [] {
      assert os + more == os;
    } else {
      assert (os + more)[..|os + more| - 1] == os + more[..|more| - 1];
      NotesAppend(os, more[..|more| - 1]);
    }
  }

  lemma {:induction false} FreshAppend(os: seq<Outcome>, more: seq<Outcome>)
    ensures FreshOf(os + more) == FreshOf(os) + FreshOf(more)
    decreases |more|
  {
    if more == [] {
      assert os + more == os;
    } else {
      assert (os + more)[..|os + more| - 1] == os + more[..|more| - 1];
      FreshAppend(os, more[..|more| - 1]);
    }
  }

  lemma StoredAppend(scan: Scan, os: seq<Outcome>, more: seq<Outcome>)
    requires forall o <- os + more :: InRange(scan, o.slot)
    ensures (forall o <- os :: InRange(scan, o.slot)) && (forall o <- more :: InRange(scan, o.slot))
    ensures StoredOf(scan, os + more) == StoredOf(scan, os) + StoredOf(scan, more)
  {
    assert forall o <- os :: o in os + more;
    assert forall o <- more :: o in os + more;
  }

  function FullSlots(batches: seq<StoredBatch>): (slots: seq<Option<StoredBatch>>)
    ensures |slots| == |batches|
    ensures forall k :: 0 <= k < |slots| ==> slots[k] == Some(batches[k])
  {
    seq(|batches|, i requires 0 <= i < |batches| => Some(batches[i]))
  }

  /** The merge loop over the results of the parallel stage. */
  method MergeResults(scan: Scan, observed: seq<Option<JobResult>>)
    returns (claimed: bool, stored: seq<(StoredBatch, bool)>, outputs: seq<Output>,
             notes: seq<Note>, extracted: seq<StoredBatch>, firstError: Option<Error>)
    requires ClaimsOnce(scan, Merged(observed))
    ensures claimed && firstError == Fence.FirstError(observed)
    ensures stored == StoredOf(scan, Merged(observed))
    ensures outputs == OutputsOf(Merged(observed)) && notes == NotesOf(Merged(observed))
    ensures extracted == FreshOf(Merged(observed))
  {
    claimed, stored, outputs, notes, extracted, firstError := true, [], [], [], [], None;
    var previous, checkpointed := FullSlots(scan.previous), FullSlots(scan.checkpointed);
    assert PreviousAfter(scan, previous, []) && CheckpointedAfter(scan, checkpointed, []);
    hide PreviousAfter, CheckpointedAfter;
    var i := 0;
    while i < |observed|
      invariant 0 <= i <= |observed| && claimed
      invariant ClaimsOnce(scan, Merged(observed[..i]))
      invariant PreviousAfter(scan, previous, Merged(observed[..i]))
      invariant CheckpointedAfter(scan, checkpointed, Merged(observed[..i]))
      invariant firstError == Fence.FirstError(observed[..i])
      invariant stored == StoredOf(scan, Merged(observed[..i]))
      invariant outputs == OutputsOf(Merged(observed[..i]))
      invariant notes == NotesOf(Merged(observed[..i]))
      invariant extracted == FreshOf(Merged(observed[..i]))
    {
      hide OutputsOf, NotesOf, FreshOf, StoredOf, Merged;
      var result := observed[i];
      var outcomes := OutcomesOf(result);
      ghost var before := Merged(observed[..i]);
      NextMerge(scan, observed, i);
      FirstErrorAppend(observed[..i], result);
      if firstError.None? && result.Some? && result.value.Err? {
        firstError := Some(result.value.error);
      }
      var s, o, n, e;
      claimed, previous, checkpointed, s, o, n, e :=
        MergeJob(scan, outcomes, before, previous, checkpointed);
      if !claimed {
        break;
      }
      StoredAppend(scan, before, outcomes);
      OutputsAppend(before, outcomes);
      NotesAppend(before, outcomes);
      FreshAppend(before, outcomes);
      stored, outputs, notes, extracted := stored + s, outputs + o, notes + n, extracted + e;
      i := i + 1;
    }
    assert observed[..i] == observed;
  }

  lemma ClaimsOncePrefix(scan: Scan, os: seq<Outcome>, all: seq<Outcome>)
    requires os <= all && ClaimsOnce(scan, all)
    ensures ClaimsOnce(scan, os)
  {
    assert forall k :: 0 <= k < |os| ==> os[k] == all[k];
    assert forall o <- os :: o in all;
  }

  lemma MergedStep(observed: seq<Option<JobResult>>, i: nat)
    requires i < |observed|
    ensures observed[..i + 1] == observed[..i] + [observed[i]]
    ensures Merged(observed[..i + 1]) == Merged(observed[..i]) + OutcomesOf(observed[i])
  {
    assert observed[..i + 1][..i] == observed[..i];
  }

  lemma NextMerge(scan: Scan, observed: seq<Option<JobResult>>, i: nat)
    requires i < |observed| && ClaimsOnce(scan, Merged(observed))
    ensures observed[..i + 1] == observed[..i] + [observed[i]]
    ensures Merged(observed[..i + 1]) == Merged(observed[..i]) + OutcomesOf(observed[i])
    ensures ClaimsOnce(scan, Merged(observed[..i + 1]))
  {
    hide *;
    MergedStep(observed, i);
    MergedPrefix(observed, i + 1);
    ClaimsOncePrefix(scan, Merged(observed[..i + 1]), Merged(observed));
  }
}
