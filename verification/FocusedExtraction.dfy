/**
 Focused extraction: reuse of published and checkpointed batches, grouping of the rest into one
 read per file, and one job of the parallel stage. A job gives the answers of its artifacts, and an
 answer from a cache is compared with extracting the artifact afresh.
 */
module FocusedExtraction {
  import opened Basics
  import opened Artifacts
  import opened Extractors
  import Fence = FailureFence

  datatype Note = LossyNote(display: Text) | IncompleteNote(display: Text, warnings: seq<Text>)

  datatype Slot = Fresh(batch: StoredBatch) | Previous(index: nat) | Checkpointed(index: nat)

  datatype Outcome = Outcome(slot: Slot, output: Option<Output>, notes: seq<Note>)

  /** `artifact` is the fingerprint a reuse answers for. */
  datatype Job =
    | Reuse(artifact: Fingerprint, batch: StoredBatch, slot: Slot)
    | Extract(checkout: Text, group: seq<Fingerprint>)

  /** One registered alias: its repository id, its checkout id and its checkout path. */
  datatype Record = Record(repo: Text, checkout: Text, path: Text)

  /** The file system while the scan extracts: reading a file below a checkout path (the extractor
      names the reader in an error), and the nearest directory above it with a `Cargo.toml`. */
  datatype Tree = Tree(
    read: (Text, NativePath, Text) -> Result<Text, Error>,
    crateRoot: (Text, NativePath) -> Text)

  /** Inputs of `assemble_focused_batches`; records are in alias order. */
  datatype Scan = Scan(
    fingerprints: seq<Fingerprint>,
    previous: seq<StoredBatch>,
    checkpointed: seq<StoredBatch>,
    changed: set<Key>,
    records: seq<Record>,
    budget: Text,
    tree: Tree)

  /** The checkout paths by repository id: among aliases that share an id the last one wins. */
  function CheckoutPaths(records: seq<Record>): (m: map<Text, Text>)
    ensures forall r <- records :: r.repo in m
  {
    if records == [] then map[] else
      var last := records[|records| - 1];
      assert records == records[..|records| - 1] + [last];
      CheckoutPaths(records[..|records| - 1])[last.repo := last.path]
  }

  /** The path a checkout id stands for. */
  function HomePath(records: seq<Record>, checkout: Text): Option<Text> {
    if records == [] then None
    else if records[|records| - 1].checkout == checkout then Some(records[|records| - 1].path)
    else HomePath(records[..|records| - 1], checkout)
  }

  // ---------------------------------------------------------------- one artifact

  function LossyNotes(lossy: bool, display: Text): seq<Note> {
    if lossy then [LossyNote(display)] else []
  }

  /** One note per incomplete document of the data-artifact extractor. */
  function IncompleteNotes(source: Fingerprint, documents: seq<Document>): seq<Note> {
    if documents == [] || source.extractor != DATA_ARTIFACT then []
    else
      var d := documents[0];
      (if d.Data? && d.incomplete then [IncompleteNote(source.path.display, d.warnings)] else [])
      + IncompleteNotes(source, documents[1..])
  }

  /** The body of the extraction loop for one fingerprint of a file already read. */
  function ExtractArtifact(w: World, budget: Text, content: Text, root: Text, fp: Fingerprint)
    : (r: Result<Outcome, Error>)
    ensures r.Ok? ==> r.value.slot.Fresh? && r.value.slot.batch.source == fp
                      && r.value.slot.batch.version == CONTRACT_VERSION
                      && r.value.slot.batch.budget == budget
    ensures r.Ok? && r.value.output.Some? ==> r.value.output.value.source == fp
  {
    match w.parse(budget, content, root, fp.path, fp.extractor)
    case Err(message) => Err(ParseError(fp, message))
    case Ok(documents) =>
      var output := Output(KindOf(fp.extractor), fp, documents);
      match StoreBatch(w, budget, output, w.lossy(content))
      case Err(e) => Err(e)
      case Ok(stored) =>
        var notes := LossyNotes(w.lossy(content), fp.path.display) + IncompleteNotes(fp, documents);
        if FactFree(output) then
          Ok(Outcome(Fresh(stored.(outputCount := 0, payload := EMPTY_PAYLOAD)), None, notes))
        else
          Ok(Outcome(Fresh(stored), Some(output), notes))
  }

  /** The crate root handed to the parser: only for sources that can name a migration directory. */
  function RootAt(w: World, tree: Tree, checkout: Text, content: Text, fp: Fingerprint): Text {
    if fp.extractor == DATA_SOURCE && w.needsRoot(content, fp.path) then tree.crateRoot(checkout, fp.path)
    else []
  }

  /** The crate root of an artifact in its own checkout, as the tree is during this scan. */
  function OwnRoot(w: World, scan: Scan, fp: Fingerprint): Text {
    match HomePath(scan.records, fp.checkout)
    case None => []
    case Some(home) => RootAt(w, scan.tree, home, w.contentOf(fp.contentHash), fp)
  }

  /**
   The reference for everything below: extracting one artifact from the content behind its hash,
   in its own checkout, with every cache empty.
   */
  function Cold(w: World, scan: Scan, fp: Fingerprint): (r: Result<Outcome, Error>)
    ensures r.Ok? ==> r.value.slot.Fresh? && r.value.slot.batch.source == fp
                      && r.value.slot.batch.version == CONTRACT_VERSION
                      && r.value.slot.batch.budget == scan.budget
    ensures r.Ok? && r.value.output.Some? ==> r.value.output.value.source == fp
  {
    ExtractArtifact(w, scan.budget, w.contentOf(fp.contentHash), OwnRoot(w, scan, fp), fp)
  }

  /** `extract_file`: one read, then every artifact of the file. */
  function ExtractGroup(w: World, scan: Scan, checkout: Text, content: Text, group: seq<Fingerprint>)
    : Result<seq<Outcome>, Error>
  {
    if group == [] then Ok([])
    else
      match ExtractArtifact(w, scan.budget, content, RootAt(w, scan.tree, checkout, content, group[0]),
                            group[0])
      case Err(e) => Err(e)
      case Ok(first) =>
        match ExtractGroup(w, scan, checkout, content, group[1..])
        case Err(e) => Err(e)
        case Ok(rest) => Ok([first] + rest)
  }

  /** Decoding a batch that is used again; a batch without outputs is not decoded. */
  function Decoded(w: World, budget: Text, batch: StoredBatch, slot: Slot)
    : (r: Result<Outcome, Error>)
    ensures r.Ok? ==> r.value.slot == slot
    ensures r.Ok? && r.value.output.Some? ==> r.value.output.value.source == batch.source
  {
    if batch.outputCount == 0 && batch.payload == EMPTY_PAYLOAD then Ok(Outcome(slot, None, []))
    else
      match LoadBatch(w, budget, batch)
      case Err(e) => Err(e)
      case Ok(output) => Ok(Outcome(slot, if FactFree(output) then None else Some(output), []))
  }

  function RunJob(w: World, scan: Scan, job: Job): Result<seq<Outcome>, Error> {
    match job
    case Reuse(_, batch, slot) =>
      (match Decoded(w, scan.budget, batch, slot)
       case Err(e) => Err(e)
       case Ok(outcome) => Ok([outcome]))
    case Extract(checkout, group) =>
      if group == [] then Ok([])
      else
        match scan.tree.read(checkout, group[0].path, group[0].extractor)
        case Err(e) => Err(e)
        case Ok(content) => ExtractGroup(w, scan, checkout, content, group)
  }

  // ---------------------------------------------------------------- job planning

  /** The last batch with a key. */
  predicate IsLast(batches: seq<StoredBatch>, i: nat, key: Key) {
    && i < |batches| && KeyOf(batches[i].source) == key
    && forall j :: i < j < |batches| ==> KeyOf(batches[j].source) != key
  }

  /** Index of the last batch with each key, as collecting into a hash map leaves it. */
  function ByKey(batches: seq<StoredBatch>): (m: map<Key, nat>)
    ensures forall k :: k in m ==> IsLast(batches, m[k], k)
    ensures forall i :: 0 <= i < |batches| ==> KeyOf(batches[i].source) in m
  {
    if batches == [] then map[] else
      var last := |batches| - 1;
      assert forall i :: 0 <= i < last ==> batches[..last][i] == batches[i];
      ByKey(batches[..last])[KeyOf(batches[last].source) := last]
  }

  predicate Matches(scan: Scan, batch: StoredBatch, fp: Fingerprint) {
    && batch.source.contentHash == fp.contentHash
    && batch.version == CONTRACT_VERSION
    && batch.budget == scan.budget
  }

  /** The last batch with the artifact's key matches it. */
  predicate Offers(scan: Scan, batches: seq<StoredBatch>, fp: Fingerprint) {
    exists i :: 0 <= i < |batches| && IsLast(batches, i, KeyOf(fp)) && Matches(scan, batches[i], fp)
  }

  /** The reusable batch of a fingerprint: a checkpoint first, else an unchanged published one. */
  function Reusable(scan: Scan, fp: Fingerprint): (r: Option<(StoredBatch, Slot)>)
    ensures r.Some? ==>
      && Matches(scan, r.value.0, fp) && KeyOf(r.value.0.source) == KeyOf(fp)
      && !r.value.1.Fresh? && InRange(scan, r.value.1) && Resolve(scan, r.value.1) == r.value.0
    ensures r.Some? && r.value.1.Checkpointed? <==> Offers(scan, scan.checkpointed, fp)
    ensures r.Some? && r.value.1.Previous?
            <==> && !Offers(scan, scan.checkpointed, fp) && KeyOf(fp) !in scan.changed
                 && Offers(scan, scan.previous, fp)
  {
    var key := KeyOf(fp);
    var checkpoints, published := ByKey(scan.checkpointed), ByKey(scan.previous);
    LastIsUnique(scan.checkpointed, key);
    LastIsUnique(scan.previous, key);
    if key in checkpoints && Matches(scan, scan.checkpointed[checkpoints[key]], fp) then
      Some((scan.checkpointed[checkpoints[key]], Checkpointed(checkpoints[key])))
    else if key in published && key !in scan.changed
            && Matches(scan, scan.previous[published[key]], fp) then
      Some((scan.previous[published[key]], Previous(published[key])))
    else None
  }

  lemma LastIsUnique(batches: seq<StoredBatch>, key: Key)
    ensures forall i :: IsLast(batches, i, key) ==> key in ByKey(batches) && ByKey(batches)[key] == i
  {
    forall i | IsLast(batches, i, key)
      ensures key in ByKey(batches) && ByKey(batches)[key] == i
    {
      assert IsLast(batches, ByKey(batches)[key], key);
    }
  }

  predicate InRange(scan: Scan, slot: Slot) {
    match slot
    case Fresh(_) => true
    case Previous(i) => i < |scan.previous|
    case Checkpointed(i) => i < |scan.checkpointed|
  }

  function Resolve(scan: Scan, slot: Slot): StoredBatch
    requires InRange(scan, slot)
  {
    match slot
    case Fresh(batch) => batch
    case Previous(i) => scan.previous[i]
    case Checkpointed(i) => scan.checkpointed[i]
  }

  predicate SameFile(a: Fingerprint, b: Fingerprint) {
    a.checkout == b.checkout && a.path == b.path
  }

  function Answers(job: Job): seq<Fingerprint> {
    match job case Reuse(fp, _, _) => [fp] case Extract(_, group) => group
  }

  function AllAnswers(jobs: seq<Job>): seq<Fingerprint> {
    if jobs == [] then [] else Answers(jobs[0]) + AllAnswers(jobs[1..])
  }

  /** A job does what its fingerprints call for, and a group is one file of one checkout. */
  ghost predicate GoodJob(scan: Scan, job: Job) {
    match job
    case Reuse(fp, batch, slot) => Reusable(scan, fp) == Some((batch, slot))
    case Extract(checkout, group) =>
      && group != [] && group[0].repo in CheckoutPaths(scan.records)
      && checkout == CheckoutPaths(scan.records)[group[0].repo]
      && forall fp <- group :: Reusable(scan, fp).None? && SameFile(fp, group[0])
  }

  /** Adjacent extract jobs are about different files, so no run of a file is split. */
  ghost predicate MaximalGroups(jobs: seq<Job>) {
    forall i :: 0 <= i < |jobs| - 1 && jobs[i].Extract? && jobs[i + 1].Extract? ==>
      && jobs[i].group != [] && jobs[i + 1].group != []
      && !SameFile(jobs[i].group[|jobs[i].group| - 1], jobs[i + 1].group[0])
  }

  /** The jobs planned for a prefix of the fingerprints. */
  ghost predicate Planned(scan: Scan, fps: seq<Fingerprint>, jobs: seq<Job>) {
    && AllAnswers(jobs) == Focused(fps)
    && (forall job <- jobs :: GoodJob(scan, job))
    && MaximalGroups(jobs)
  }

  lemma Associates(a: seq<Fingerprint>, b: seq<Fingerprint>, c: seq<Fingerprint>)
    ensures a + (b + c) == (a + b) + c
  {}

  lemma {:induction false} AllAnswersAppend(jobs: seq<Job>, job: Job)
    ensures AllAnswers(jobs + [job]) == AllAnswers(jobs) + Answers(job)
  {
    hide Answers;
    if jobs == [] {
      assert [job][1..] == [] && jobs + [job] == [job];
      assert AllAnswers([job]) == Answers(job) + AllAnswers([job][1..]);
    } else {
      AllAnswersAppend(jobs[1..], job);
      AllAnswersStep(jobs + [job]);
      assert (jobs + [job])[1..] == jobs[1..] + [job];
      AllAnswersStep(jobs);
      hide AllAnswers;
      Associates(Answers(jobs[0]), AllAnswers(jobs[1..]), Answers(job));
    }
  }

  lemma AllAnswersStep(jobs: seq<Job>)
    requires jobs != []
    ensures AllAnswers(jobs) == Answers(jobs[0]) + AllAnswers(jobs[1..])
  {
  }

  lemma PushMaximal(jobs: seq<Job>, job: Job)
    requires MaximalGroups(jobs)
    requires jobs != [] && jobs[|jobs| - 1].Extract? && job.Extract? ==>
               && jobs[|jobs| - 1].group != [] && job.group != []
               && !SameFile(jobs[|jobs| - 1].group[|jobs[|jobs| - 1].group| - 1], job.group[0])
    ensures MaximalGroups(jobs + [job])
  {
    hide SameFile;
  }

  /** The new fingerprint starts a job of its own. */
  lemma PushJob(scan: Scan, fps: seq<Fingerprint>, jobs: seq<Job>, fp: Fingerprint, job: Job)
    requires Planned(scan, fps, jobs) && IsFocused(fp.extractor)
    requires GoodJob(scan, job) && Answers(job) == [fp]
    requires jobs != [] && jobs[|jobs| - 1].Extract? && job.Extract? ==>
               && jobs[|jobs| - 1].group != []
               && !SameFile(jobs[|jobs| - 1].group[|jobs[|jobs| - 1].group| - 1], fp)
    ensures Planned(scan, fps + [fp], jobs + [job])
  {
    AllAnswersAppend(jobs, job);
    assert job.Extract? ==> job.group == [fp];
    PushMaximal(jobs, job);
    hide IsFocused, GoodJob, AllAnswers, Answers, MaximalGroups;
    assert (fps + [fp])[..|fps|] == fps;
  }

  function Grow(jobs: seq<Job>, fp: Fingerprint): seq<Job>
    requires jobs != [] && jobs[|jobs| - 1].Extract?
  {
    var last := jobs[|jobs| - 1];
    jobs[..|jobs| - 1] + [Extract(last.checkout, last.group + [fp])]
  }

  lemma GrowAnswers(jobs: seq<Job>, fp: Fingerprint)
    requires jobs != [] && jobs[|jobs| - 1].Extract?
    ensures AllAnswers(Grow(jobs, fp)) == AllAnswers(jobs) + [fp]
  {
    hide AllAnswers;
    var init, last := jobs[..|jobs| - 1], jobs[|jobs| - 1];
    assert jobs == init + [last];
    AllAnswersAppend(init, last);
    AllAnswersAppend(init, Extract(last.checkout, last.group + [fp]));
    Associates(AllAnswers(init), last.group, [fp]);
  }

  lemma GrowMaximal(jobs: seq<Job>, fp: Fingerprint)
    requires jobs != [] && jobs[|jobs| - 1].Extract? && jobs[|jobs| - 1].group != []
    requires MaximalGroups(jobs)
    ensures MaximalGroups(Grow(jobs, fp))
  {
    var grown := Grow(jobs, fp);
    forall i | 0 <= i < |grown| - 1 && grown[i].Extract? && grown[i + 1].Extract?
      ensures grown[i].group != [] && grown[i + 1].group != []
           && !SameFile(grown[i].group[|grown[i].group| - 1], grown[i + 1].group[0])
    {
      assert jobs[i] == grown[i] && jobs[i + 1].Extract?;
      assert jobs[i + 1].group[0] == grown[i + 1].group[0];
    }
  }

  /** The new fingerprint joins the group of the file before it. */
  lemma GrowGroup(scan: Scan, fps: seq<Fingerprint>, jobs: seq<Job>, fp: Fingerprint)
    requires Planned(scan, fps, jobs) && IsFocused(fp.extractor) && Reusable(scan, fp).None?
    requires jobs != [] && jobs[|jobs| - 1].Extract? && jobs[|jobs| - 1].group != []
    requires SameFile(jobs[|jobs| - 1].group[|jobs[|jobs| - 1].group| - 1], fp)
    ensures Planned(scan, fps + [fp], Grow(jobs, fp))
  {
    hide IsFocused, Reusable, AllAnswers, MaximalGroups, GoodJob;
    var last := jobs[|jobs| - 1];
    assert (fps + [fp])[..|fps|] == fps;
    GrowAnswers(jobs, fp);
    GrowMaximal(jobs, fp);
    assert last in jobs;
    GrowGood(scan, last, fp);
  }

  lemma GrowGood(scan: Scan, job: Job, fp: Fingerprint)
    requires GoodJob(scan, job) && job.Extract? && Reusable(scan, fp).None?
    requires job.group != [] && SameFile(job.group[|job.group| - 1], fp)
    ensures GoodJob(scan, Extract(job.checkout, job.group + [fp]))
  {
    hide Reusable;
    assert job.group[|job.group| - 1] in job.group;
  }

  ghost predicate HasCheckouts(scan: Scan, fps: seq<Fingerprint>) {
    forall fp <- Focused(fps) :: Reusable(scan, fp).None? ==> fp.repo in CheckoutPaths(scan.records)
  }

  /**
   The planning loop. It fails exactly when an artifact that needs extraction belongs to a
   repository without a checkout.
   */
  method PlanJobs(scan: Scan) returns (r: Result<seq<Job>, Error>)
    ensures r.Ok? ==> Planned(scan, scan.fingerprints, r.value)
    ensures r.Ok? <==> HasCheckouts(scan, scan.fingerprints)
  {
    hide IsFocused, Reusable, AllAnswers, MaximalGroups;
    var checkouts := CheckoutPaths(scan.records);
    var jobs: seq<Job> := [];
    assert Planned(scan, [], jobs) by { PlannedNothing(scan); }
    var i := 0;
    while i < |scan.fingerprints|
      invariant 0 <= i <= |scan.fingerprints|
      invariant Planned(scan, scan.fingerprints[..i], jobs)
      invariant HasCheckouts(scan, scan.fingerprints[..i])
    {
      var fp := scan.fingerprints[i];
      assert scan.fingerprints[..i + 1] == scan.fingerprints[..i] + [fp];
      assert (scan.fingerprints[..i] + [fp])[..i] == scan.fingerprints[..i];
      if IsFocused(fp.extractor) {
        var reusable := Reusable(scan, fp);
        if reusable.Some? {
          var job := Reuse(fp, reusable.value.0, reusable.value.1);
          PushJob(scan, scan.fingerprints[..i], jobs, fp, job);
          jobs := jobs + [job];
        } else if fp.repo !in checkouts {
          FocusedPrefix(scan.fingerprints, i + 1);
          assert fp in Focused(scan.fingerprints[..i + 1]);
          return Err(AliasMissing(fp.repo));
        } else if jobs != [] && jobs[|jobs| - 1].Extract? && jobs[|jobs| - 1].group != []
                  && SameFile(jobs[|jobs| - 1].group[|jobs[|jobs| - 1].group| - 1], fp) {
          GrowGroup(scan, scan.fingerprints[..i], jobs, fp);
          jobs := Grow(jobs, fp);
        } else {
          assert jobs != [] ==> jobs[|jobs| - 1] in jobs;
          PushJob(scan, scan.fingerprints[..i], jobs, fp, Extract(checkouts[fp.repo], [fp]));
          jobs := jobs + [Extract(checkouts[fp.repo], [fp])];
        }
      }
      i := i + 1;
    }
    assert scan.fingerprints[..i] == scan.fingerprints;
    return Ok(jobs);
  }

  lemma PlannedNothing(scan: Scan)
    ensures Planned(scan, [], [])
  {
  }

  lemma {:induction false} FocusedPrefix(fps: seq<Fingerprint>, n: nat)
    requires n <= |fps|
    ensures forall fp <- Focused(fps[..n]) :: fp in Focused(fps)
    decreases |fps|
  {
    if n < |fps| {
      FocusedPrefix(fps[..|fps| - 1], n);
      assert fps[..|fps| - 1][..n] == fps[..n];
    } else {
      assert fps[..n] == fps;
    }
  }

  // ---------------------------------------------------------------- what a scan answers

  /** An artifact and the artifact whose read serves it: the first of its group. */
  datatype Task = Task(lead: Fingerprint, artifact: Fingerprint)

  function TaskKey(t: Task): Key { KeyOf(t.artifact) }

  function Led(lead: Fingerprint, group: seq<Fingerprint>): seq<Task> {
    seq(|group|, i requires 0 <= i < |group| => Task(lead, group[i]))
  }

  function Tasks(job: Job): seq<Task> {
    match job
    case Reuse(fp, _, _) => [Task(fp, fp)]
    case Extract(_, group) => if group == [] then [] else Led(group[0], group)
  }

  function AllTasks(jobs: seq<Job>): seq<Task> {
    if jobs == [] then [] else AllTasks(jobs[..|jobs| - 1]) + Tasks(jobs[|jobs| - 1])
  }

  function ArtifactsOf(tasks: seq<Task>): (fps: seq<Fingerprint>)
    ensures |fps| == |tasks| && forall i :: 0 <= i < |tasks| ==> fps[i] == tasks[i].artifact
  {
    seq(|tasks|, i requires 0 <= i < |tasks| => tasks[i].artifact)
  }

  lemma {:induction false} TasksAnswer(jobs: seq<Job>)
    ensures ArtifactsOf(AllTasks(jobs)) == AllAnswers(jobs)
    decreases |jobs|
  {
    if jobs != [] {
      var init, last := jobs[..|jobs| - 1], jobs[|jobs| - 1];
      TasksAnswer(init);
      assert jobs == init + [last];
      AllAnswersAppend(init, last);
      assert ArtifactsOf(Tasks(last)) == Answers(last);
      hide AllAnswers, Answers, Tasks;
      assert ArtifactsOf(AllTasks(init) + Tasks(last)) == ArtifactsOf(AllTasks(init)) + ArtifactsOf(Tasks(last));
    }
  }

  /** What extracting an artifact gives: from what the checkout found by the lead's repository id
      holds when the lead's file is read. */
  function Read(w: World, scan: Scan, t: Task): (r: Result<Outcome, Error>)
    ensures r.Ok? ==> r.value.slot.Fresh? && r.value.slot.batch.source == t.artifact
                      && r.value.slot.batch.version == CONTRACT_VERSION
                      && r.value.slot.batch.budget == scan.budget
    ensures r.Ok? && r.value.output.Some? ==> r.value.output.value.source == t.artifact
  {
    var paths := CheckoutPaths(scan.records);
    if t.lead.repo !in paths then Err(AliasMissing(t.lead.repo))
    else
      var checkout := paths[t.lead.repo];
      match scan.tree.read(checkout, t.lead.path, t.lead.extractor)
      case Err(e) => Err(e)
      case Ok(content) =>
        ExtractArtifact(w, scan.budget, content, RootAt(w, scan.tree, checkout, content, t.artifact),
                        t.artifact)
  }

  /** What a scan answers for one artifact: a reusable batch as it is, else what was read. */
  function Warm(w: World, scan: Scan, t: Task): (r: Result<Outcome, Error>)
    ensures r.Ok? ==> InRange(scan, r.value.slot)
                      && KeyOf(Resolve(scan, r.value.slot).source) == TaskKey(t)
    ensures r.Ok? && r.value.output.Some? ==> KeyOf(r.value.output.value.source) == TaskKey(t)
    ensures r.Ok? && Reusable(scan, t.artifact).Some? ==> r.value.slot == Reusable(scan, t.artifact).value.1
    ensures r.Ok? && Reusable(scan, t.artifact).None? ==>
              r.value.slot.Fresh? && r.value.slot.batch.source == t.artifact
              && Matches(scan, r.value.slot.batch, t.artifact)
  {
    match Reusable(scan, t.artifact)
    case Some(reuse) => Decoded(w, scan.budget, reuse.0, reuse.1)
    case None => Read(w, scan, t)
  }

  ghost predicate AllWarm(w: World, scan: Scan, tasks: seq<Task>, os: seq<Outcome>) {
    |tasks| == |os| && forall i :: 0 <= i < |tasks| ==> Warm(w, scan, tasks[i]) == Ok(os[i])
  }

  /** First artifact without an answer, reported with its error. */
  function FirstWarmError(w: World, scan: Scan, tasks: seq<Task>): Option<Error> {
    if tasks == [] then None
    else
      match Warm(w, scan, tasks[0])
      case Err(e) => Some(e)
      case Ok(_) => FirstWarmError(w, scan, tasks[1..])
  }

  /** The same with every cache empty. */
  function FirstColdError(w: World, scan: Scan, fps: seq<Fingerprint>): Option<Error> {
    if fps == [] then None
    else
      match Cold(w, scan, fps[0])
      case Err(e) => Some(e)
      case Ok(_) => FirstColdError(w, scan, fps[1..])
  }

  // ---------------------------------------------------------------- one job against its answers

  lemma {:induction false} GroupAnswers(
    w: World, scan: Scan, lead: Fingerprint, content: Text, group: seq<Fingerprint>)
    requires lead.repo in CheckoutPaths(scan.records)
    requires scan.tree.read(CheckoutPaths(scan.records)[lead.repo], lead.path, lead.extractor) == Ok(content)
    requires forall fp <- group :: Reusable(scan, fp).None?
    ensures var run := ExtractGroup(w, scan, CheckoutPaths(scan.records)[lead.repo], content, group);
            match FirstWarmError(w, scan, Led(lead, group))
            case Some(e) => run == Err(e)
            case None => run.Ok? && AllWarm(w, scan, Led(lead, group), run.value)
  {
    hide ExtractArtifact, Reusable, RootAt, CheckoutPaths;
    if group != [] {
      GroupAnswers(w, scan, lead, content, group[1..]);
      assert group[0] in group;
      assert Led(lead, group)[1..] == Led(lead, group[1..]);
      assert forall i :: 0 < i < |group| ==> Led(lead, group)[i] == Led(lead, group[1..])[i - 1];
    }
  }

  /** A job gives the answers of its artifacts, or the first of their errors. */
  lemma JobAnswers(w: World, scan: Scan, job: Job)
    requires GoodJob(scan, job)
    ensures var run := RunJob(w, scan, job);
            match FirstWarmError(w, scan, Tasks(job))
            case Some(e) => run == Err(e)
            case None => run.Ok? && AllWarm(w, scan, Tasks(job), run.value)
  {
    hide ExtractArtifact, Decoded, RootAt, ExtractGroup, CheckoutPaths;
    match job
    case Reuse(fp, _, _) =>
      assert [Task(fp, fp)][1..] == [];
    case Extract(checkout, group) =>
      assert group[0] in group;
      var read := scan.tree.read(checkout, group[0].path, group[0].extractor);
      if read.Ok? {
        GroupAnswers(w, scan, group[0], read.value, group);
      } else {
        assert Tasks(job)[0] == Task(group[0], group[0]);
        assert Warm(w, scan, Tasks(job)[0]) == Err(read.error);
      }
  }

  // ---------------------------------------------------------------- reads against cold extraction

  /** The read gave what cold extraction gives. */
  ghost predicate SoundRead(w: World, scan: Scan, t: Task) {
    Reusable(scan, t.artifact).None? ==> Read(w, scan, t) == Cold(w, scan, t.artifact)
  }

  /** A file that the scan extracts still has, in its own checkout, the content it was hashed with. */
  ghost predicate Still(w: World, scan: Scan, fp: Fingerprint) {
    var home := HomePath(scan.records, fp.checkout);
    home.Some? &&
    forall extractor ::
      scan.tree.read(home.value, fp.path, extractor) == Ok(w.contentOf(fp.contentHash))
  }

  /** The checkout path found by repository id is the artifact's own checkout. */
  predicate ReadsOwnCheckout(scan: Scan, fp: Fingerprint) {
    var paths := CheckoutPaths(scan.records);
    fp.repo in paths && HomePath(scan.records, fp.checkout) == Some(paths[fp.repo])
  }

  /** The tree holds still: only for artifacts that are extracted. Artifacts carried over by a partial
      scan are answered from their batches, and their files may have changed. */
  ghost predicate StillTree(w: World, scan: Scan) {
    forall fp <- Focused(scan.fingerprints) :: Reusable(scan, fp).None? ==> Still(w, scan, fp)
  }

  /** What a caller can check: every artifact to extract is read from its own checkout. */
  ghost predicate OwnCheckouts(scan: Scan) {
    forall fp <- Focused(scan.fingerprints) :: Reusable(scan, fp).None? ==> ReadsOwnCheckout(scan, fp)
  }

  lemma StillReadIsSound(w: World, scan: Scan, t: Task)
    requires SameFile(t.artifact, t.lead) && ReadsOwnCheckout(scan, t.lead)
    requires Still(w, scan, t.lead) && Still(w, scan, t.artifact)
    ensures SoundRead(w, scan, t)
  {
    hide ExtractArtifact, RootAt, CheckoutPaths, HomePath, Reusable;
    var home := HomePath(scan.records, t.artifact.checkout).value;
    assert scan.tree.read(home, t.lead.path, t.lead.extractor) == Ok(w.contentOf(t.lead.contentHash));
    assert scan.tree.read(home, t.lead.path, t.lead.extractor) == Ok(w.contentOf(t.artifact.contentHash));
  }

  lemma {:induction false} TaskOfPlan(scan: Scan, jobs: seq<Job>, t: Task)
    requires (forall job <- jobs :: GoodJob(scan, job)) && t in AllTasks(jobs)
    ensures t.lead in AllAnswers(jobs) && t.artifact in AllAnswers(jobs)
    ensures Reusable(scan, t.artifact).None? ==>
              SameFile(t.artifact, t.lead) && Reusable(scan, t.lead).None?
    decreases |jobs|
  {
    hide Reusable;
    var init, last := jobs[..|jobs| - 1], jobs[|jobs| - 1];
    assert jobs == init + [last];
    AllAnswersAppend(init, last);
    hide AllAnswers;
    if t in AllTasks(init) {
      TaskOfPlan(scan, init, t);
    } else {
      assert GoodJob(scan, last) && t in Tasks(last);
    }
  }

  /** Where extracted files hold still in their own checkout, every read is sound. */
  lemma StillTreeReadsSoundly(w: World, scan: Scan, jobs: seq<Job>)
    requires StillTree(w, scan) && OwnCheckouts(scan) && Planned(scan, scan.fingerprints, jobs)
    ensures forall t <- AllTasks(jobs) :: SoundRead(w, scan, t)
  {
    hide GoodJob, AllAnswers, AllTasks, Focused, Still, ReadsOwnCheckout, SameFile, MaximalGroups;
    forall t | t in AllTasks(jobs)
      ensures SoundRead(w, scan, t)
    {
      TaskOfPlan(scan, jobs, t);
      if Reusable(scan, t.artifact).None? {
        StillReadIsSound(w, scan, t);
      }
    }
  }

  /** One checkout per repository id is enough. */
  lemma OneCheckoutPerRepository(records: seq<Record>, repo: Text, checkout: Text)
    requires exists r <- records :: r.repo == repo && r.checkout == checkout
    requires forall r <- records :: r.repo == repo <==> r.checkout == checkout
    ensures repo in CheckoutPaths(records)
    ensures HomePath(records, checkout) == Some(CheckoutPaths(records)[repo])
  {
    var init, last := records[..|records| - 1], records[|records| - 1];
    assert records == init + [last];
    if last.repo != repo {
      OneCheckoutPerRepository(init, repo, checkout);
    }
  }

  /** Every artifact of the job has its own checkout where the job reads. */
  predicate ReadsAtHome(scan: Scan, job: Job) {
    job.Extract? ==> forall fp <- job.group :: HomePath(scan.records, fp.checkout) == Some(job.checkout)
  }

  /** The exact condition, for every plan: all jobs read their artifacts' own checkout if and only if
      each artifact to extract finds its own checkout by repository id. */
  lemma PlanReadsOwnCheckoutsIff(scan: Scan, jobs: seq<Job>)
    requires Planned(scan, scan.fingerprints, jobs) && OneRepoPerCheckout(Focused(scan.fingerprints))
    ensures (forall job <- jobs :: ReadsAtHome(scan, job)) <==> OwnCheckouts(scan)
  {
    hide Reusable, CheckoutPaths, HomePath, Focused, MaximalGroups, AllAnswers;
    forall job | job in jobs && job.Extract?
      ensures forall fp <- job.group :: && fp in Focused(scan.fingerprints) && Reusable(scan, fp).None?
                                        && fp.repo == job.group[0].repo
                                        && CheckoutPaths(scan.records)[fp.repo] == job.checkout
    {
      assert GoodJob(scan, job);
      forall fp | fp in job.group
        ensures fp in Focused(scan.fingerprints) && fp.repo == job.group[0].repo
      {
        assert job.group[0] in job.group;
        JobIsAnswered(jobs, job, fp);
        JobIsAnswered(jobs, job, job.group[0]);
      }
    }
    if forall job <- jobs :: ReadsAtHome(scan, job) {
      forall fp | fp in Focused(scan.fingerprints) && Reusable(scan, fp).None?
        ensures ReadsOwnCheckout(scan, fp)
      {
        var job := AnsweredBy(jobs, fp);
        assert GoodJob(scan, job) && ReadsAtHome(scan, job);
      }
    }
  }

  lemma {:induction false} JobIsAnswered(jobs: seq<Job>, job: Job, fp: Fingerprint)
    requires job in jobs && fp in Answers(job)
    ensures fp in AllAnswers(jobs)
  {
    if job != jobs[0] {
      JobIsAnswered(jobs[1..], job, fp);
    }
  }

  lemma {:induction false} AnsweredBy(jobs: seq<Job>, fp: Fingerprint) returns (job: Job)
    requires fp in AllAnswers(jobs)
    ensures job in jobs && fp in Answers(job)
  {
    if fp in Answers(jobs[0]) {
      job := jobs[0];
    } else {
      job := AnsweredBy(jobs[1..], fp);
    }
  }

  lemma NoIncompleteNotes(fp: Fingerprint, documents: seq<Document>)
    requires fp.extractor != DATA_ARTIFACT
    ensures IncompleteNotes(fp, documents) == []
  {
  }

  /** The stored batch tells the whole outcome: output and notes follow from it. */
  lemma BatchDeterminesOutcome(
    w: World, budget: Text, content: Text, root: Text, content': Text, root': Text, fp: Fingerprint)
    requires CodecInverts(w)
    requires ExtractArtifact(w, budget, content, root, fp).Ok?
    requires ExtractArtifact(w, budget, content', root', fp).Ok?
    requires ExtractArtifact(w, budget, content, root, fp).value.slot
             == ExtractArtifact(w, budget, content', root', fp).value.slot
    ensures ExtractArtifact(w, budget, content, root, fp) == ExtractArtifact(w, budget, content', root', fp)
  {
    hide KindOf, IncompleteNotes, LossyNotes;
    var d := w.parse(budget, content, root, fp.path, fp.extractor).value;
    var d' := w.parse(budget, content', root', fp.path, fp.extractor).value;
    var kind := KindOf(fp.extractor);
    assert w.decode(kind, w.encode(d)) == Some(d) && w.decode(kind, w.encode(d')) == Some(d');
    if FactFree(Output(kind, fp, d)) || FactFree(Output(kind, fp, d')) {
      SourceScansOnly(fp);
      if fp.extractor == DATA_ARTIFACT {
        DataArtifactKeepsDocuments(Output(kind, fp, d));
        DataArtifactKeepsDocuments(Output(kind, fp, d'));
      }
      hide FactFree;
      NoIncompleteNotes(fp, d);
      NoIncompleteNotes(fp, d');
    }
  }

  // ---------------------------------------------------------------- reuse against cold extraction

  /** The batch is what extracting the content behind its hash gave, at some crate root. */
  ghost predicate ExtractedAt(w: World, batch: StoredBatch, root: Text) {
    var r := ExtractArtifact(w, batch.budget, w.contentOf(batch.source.contentHash), root, batch.source);
    r.Ok? && r.value.slot.batch == batch
  }

  /** A reused batch records the size the fingerprint has now, and what extraction at the crate root
      of now gives. */
  ghost predicate SoundReuse(w: World, scan: Scan, fp: Fingerprint) {
    var reuse := Reusable(scan, fp);
    reuse.Some? ==>
      reuse.value.0.source.size == fp.size && ExtractedAt(w, reuse.value.0, OwnRoot(w, scan, fp))
  }

  /** Reuse answers with the cold batch if and only if it is sound. */
  lemma ReuseIsColdIffSound(w: World, scan: Scan, fp: Fingerprint)
    requires Reusable(scan, fp).Some?
    ensures (Cold(w, scan, fp).Ok? && Cold(w, scan, fp).value.slot.batch == Reusable(scan, fp).value.0)
            <==> SoundReuse(w, scan, fp)
  {
    hide ExtractArtifact, Reusable, OwnRoot;
    var batch := Reusable(scan, fp).value.0;
    if batch.source.size == fp.size {
      assert batch.source == fp;
    }
  }

  /** With an unchanged crate root a reused batch is the cold one if and only if the size is too. */
  lemma SameRootLeavesTheSize(w: World, scan: Scan, fp: Fingerprint)
    requires Reusable(scan, fp).Some?
    requires ExtractedAt(w, Reusable(scan, fp).value.0, OwnRoot(w, scan, fp))
    ensures (Cold(w, scan, fp).Ok? && Cold(w, scan, fp).value.slot.batch == Reusable(scan, fp).value.0)
            <==> Reusable(scan, fp).value.0.source.size == fp.size
  {
    ReuseIsColdIffSound(w, scan, fp);
  }

  /** Decoding an extracted batch never fails and gives back its documents, whatever it was
      extracted from. */
  lemma ExtractedBatchDecodes(
    w: World, budget: Text, content: Text, root: Text, fp: Fingerprint, slot: Slot)
    requires CodecInverts(w) && ExtractArtifact(w, budget, content, root, fp).Ok?
    ensures var cold := ExtractArtifact(w, budget, content, root, fp).value;
            Decoded(w, budget, cold.slot.batch, slot)
            == Ok(Outcome(slot, if cold.output.Some? && cold.output.value.documents == [] then None
                                else cold.output, []))
  {
    hide KindOf, FactFree, IncompleteNotes;
    var documents := w.parse(budget, content, root, fp.path, fp.extractor).value;
    var output := Output(KindOf(fp.extractor), fp, documents);
    StoreThenLoad(w, budget, output, w.lossy(content));
    assert w.decode(output.kind, w.encode(documents)) == Some(documents);
    assert w.decode(output.kind, w.encode([])) == Some([]);
  }

  /** What the merge keeps of a reused artifact: no notes, and no output without documents. */
  lemma SoundReuseAnswers(w: World, scan: Scan, fp: Fingerprint)
    requires CodecInverts(w) && Reusable(scan, fp).Some? && SoundReuse(w, scan, fp)
    ensures forall lead :: Warm(w, scan, Task(lead, fp)) == Warm(w, scan, Task(fp, fp))
    ensures Cold(w, scan, fp).Ok? && Warm(w, scan, Task(fp, fp)).Ok?
    ensures var cold, warm := Cold(w, scan, fp).value, Warm(w, scan, Task(fp, fp)).value;
            && Resolve(scan, warm.slot) == cold.slot.batch && warm.notes == []
            && warm.output == if cold.output.Some? && cold.output.value.documents == [] then None
                              else cold.output
  {
    hide ExtractArtifact, Reusable, OwnRoot, Decoded;
    var reuse := Reusable(scan, fp).value;
    assert reuse.0.source == fp;
    ExtractedBatchDecodes(
      w, scan.budget, w.contentOf(fp.contentHash), OwnRoot(w, scan, fp), fp, reuse.1);
  }
}
