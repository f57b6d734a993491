/**
 The file-stat cache. Scans stat and read files while other processes write them; a stat entry
 is trusted by size, modification time and identity alone. The file system stamps a write at time
 t with a modification time of at least t minus its granularity.
 */
module StatCache {
  import opened Basics

  const RACY_WINDOW_NS: int := 2_000_000_000

  /** Checkout id and canonical relative path bytes. */
  datatype FileKey = FileKey(checkout: Text, path: Text)

  datatype Metadata = Metadata(size: nat, modified: int, identity: Text)

  datatype File = File(content: Text, meta: Metadata)

  datatype FileStat = FileStat(meta: Metadata, contentHash: Text)

  /** What fingerprinting one request produced; `stat` is the entry worth remembering. */
  datatype Outcome = Outcome(key: FileKey, hash: Text, stat: Option<FileStat>, hit: bool)

  datatype Request =
    | Todo(key: FileKey)
    | Statted(key: FileKey, meta: Metadata)
    | Done(outcome: Outcome)

  datatype Scan = Scan(recordedBefore: int, loaded: map<FileKey, FileStat>, requests: seq<Request>)

  datatype State = State(
    now: int, files: map<FileKey, File>, cache: map<FileKey, FileStat>, scan: Option<Scan>)

  /** The hit rule: size, modification time and identity must all be what was recorded. */
  function CachedHash(loaded: map<FileKey, FileStat>, key: FileKey, meta: Metadata): Option<Text> {
    if key in loaded && loaded[key].meta == meta then Some(loaded[key].contentHash) else None
  }

  /** An entry is kept only for a file last modified before the racy window. */
  function Fingerprinted(key: FileKey, meta: Metadata, hash: Text, recordedBefore: int, hit: bool): Outcome {
    Outcome(key, hash, if meta.modified < recordedBefore then Some(FileStat(meta, hash)) else None, hit)
  }

  // ---------------------------------------------------------------- the delta of one pass

  function Upserts(loaded: map<FileKey, FileStat>, outcomes: seq<Outcome>): seq<(FileKey, FileStat)> {
    if outcomes == [] then [] else
      var o := outcomes[|outcomes| - 1];
      Upserts(loaded, outcomes[..|outcomes| - 1])
      + (if IsNews(loaded, o) then [(o.key, o.stat.value)] else [])
  }

  function Seen(outcomes: seq<Outcome>): set<FileKey> {
    set o | o in outcomes && o.stat.Some? :: o.key
  }

  function Removals(loaded: map<FileKey, FileStat>, outcomes: seq<Outcome>): set<FileKey> {
    set k | k in loaded && k.checkout in Checkouts(outcomes) && k !in Seen(outcomes)
  }

  function Checkouts(outcomes: seq<Outcome>): set<Text> {
    set o | o in outcomes :: o.key.checkout
  }

  /** Files answered without a read. */
  function Hits(outcomes: seq<Outcome>): nat {
    if outcomes == [] then 0 else
      Hits(outcomes[..|outcomes| - 1]) + (if outcomes[|outcomes| - 1].hit then 1 else 0)
  }

  predicate IsNews(loaded: map<FileKey, FileStat>, o: Outcome) {
    o.stat.Some? && !(o.key in loaded && loaded[o.key] == o.stat.value)
  }

  lemma CollectStep(loaded: map<FileKey, FileStat>, outcomes: seq<Outcome>, o: Outcome)
    ensures Upserts(loaded, outcomes + [o])
            == if IsNews(loaded, o) then Upserts(loaded, outcomes) + [(o.key, o.stat.value)]
               else Upserts(loaded, outcomes)
    ensures Hits(outcomes + [o]) == Hits(outcomes) + (if o.hit then 1 else 0)
  {
    assert (outcomes + [o])[..|outcomes|] == outcomes;
  }

  lemma SeenAppend(outcomes: seq<Outcome>, o: Outcome)
    ensures Seen(outcomes + [o]) == Seen(outcomes) + (if o.stat.Some? then {o.key} else {})
    ensures Checkouts(outcomes + [o]) == Checkouts(outcomes) + {o.key.checkout}
  {
    assert forall x :: x in outcomes + [o] <==> x in outcomes || x == o;
  }

  function Applied(m: map<FileKey, FileStat>, upserts: seq<(FileKey, FileStat)>): map<FileKey, FileStat> {
    if upserts == [] then m else
      var last := upserts[|upserts| - 1];
      Applied(m, upserts[..|upserts| - 1])[last.0 := last.1]
  }

  /** `apply_file_stat_delta`: removals first, then upserts. */
  function ApplyDelta(
    cache: map<FileKey, FileStat>, upserts: seq<(FileKey, FileStat)>, removals: set<FileKey>)
    : map<FileKey, FileStat>
  {
    Applied(cache - removals, upserts)
  }

  /** The collecting loop of `discover_artifact_fingerprints`. */
  method CollectDelta(loaded: map<FileKey, FileStat>, outcomes: seq<Outcome>)
    returns (upserts: seq<(FileKey, FileStat)>, removals: set<FileKey>, hits: nat)
    ensures upserts == Upserts(loaded, outcomes) && removals == Removals(loaded, outcomes)
    ensures hits == Hits(outcomes)
  {
    CollectNothing(loaded);
    hide Upserts, Hits, Seen, Checkouts;
    upserts, hits := [], 0;
    var seen: set<FileKey>, scanned: set<Text> := {}, {};
    var i := 0;
    while i < |outcomes|
      invariant 0 <= i <= |outcomes|
      invariant upserts == Upserts(loaded, outcomes[..i]) && seen == Seen(outcomes[..i])
      invariant scanned == Checkouts(outcomes[..i])
      invariant hits == Hits(outcomes[..i])
    {
      var o := outcomes[i];
      assert outcomes[..i + 1] == outcomes[..i] + [o];
      SeenAppend(outcomes[..i], o);
      CollectStep(loaded, outcomes[..i], o);
      if o.hit {
        hits := hits + 1;
      }
      if o.stat.Some? {
        if IsNews(loaded, o) {
          upserts := upserts + [(o.key, o.stat.value)];
        }
        seen := seen + {o.key};
      }
      scanned := scanned + {o.key.checkout};
      i := i + 1;
    }
    assert outcomes[..i] == outcomes;
    removals := set k | k in loaded && k.checkout in scanned && k !in seen;
  }

  lemma CollectNothing(loaded: map<FileKey, FileStat>)
    ensures Upserts(loaded, []) == [] && Hits([]) == 0 && Seen([]) == {} && Checkouts([]) == {}
  {
  }

  // ---------------------------------------------------------------- runs

  datatype Step =
    | Tick(to: int)
    | Write(key: FileKey, file: File)
    | Delete(key: FileKey)
    | BeginScan(force: bool, keys: seq<FileKey>)
    | StatFile(request: nat)
    | ReadFile(request: nat)
    | EndScan
    | AbortScan

  ghost predicate Enabled(granularity: int, s: State, step: Step) {
    match step
    case Tick(to) => to >= s.now
    case Write(_, file) => s.now - granularity <= file.meta.modified <= s.now
    case Delete(key) => key in s.files
    case BeginScan(_, _) => s.scan.None?
    case StatFile(i) =>
      s.scan.Some? && i < |s.scan.value.requests| && s.scan.value.requests[i].Todo?
      && s.scan.value.requests[i].key in s.files
    case ReadFile(i) =>
      s.scan.Some? && i < |s.scan.value.requests| && s.scan.value.requests[i].Statted?
      && s.scan.value.requests[i].key in s.files
    case EndScan => s.scan.Some? && forall r <- s.scan.value.requests :: r.Done?
    case AbortScan => s.scan.Some?
  }

  function Outcomes(requests: seq<Request>): seq<Outcome>
    requires forall r <- requests :: r.Done?
  {
    seq(|requests|, i requires 0 <= i < |requests| => requests[i].outcome)
  }

  function Todos(keys: seq<FileKey>): seq<Request> {
    seq(|keys|, i requires 0 <= i < |keys| => Todo(keys[i]))
  }

  ghost function Apply(hash: Text -> Text, granularity: int, s: State, step: Step): State
    requires Enabled(granularity, s, step)
  {
    match step
    case Tick(to) => s.(now := to)
    case Write(key, file) => s.(files := s.files[key := file])
    case Delete(key) => s.(files := s.files - {key})
    case BeginScan(force, keys) =>
      s.(scan := Some(Scan(s.now - RACY_WINDOW_NS, if force then map[] else s.cache,
                           Todos(keys))))
    case StatFile(i) =>
      var scan := s.scan.value;
      var key := scan.requests[i].key;
      var meta := s.files[key].meta;
      var cached := CachedHash(scan.loaded, key, meta);
      var next := if cached.Some? then Done(Fingerprinted(key, meta, cached.value, scan.recordedBefore, true))
                  else Statted(key, meta);
      s.(scan := Some(scan.(requests := scan.requests[i := next])))
    case ReadFile(i) =>
      var scan := s.scan.value;
      var r := scan.requests[i];
      var next := Done(Fingerprinted(r.key, r.meta, hash(s.files[r.key].content), scan.recordedBefore, false));
      s.(scan := Some(scan.(requests := scan.requests[i := next])))
    case EndScan =>
      var scan := s.scan.value;
      var outcomes := Outcomes(scan.requests);
      s.(scan := None,
         cache := ApplyDelta(s.cache, Upserts(scan.loaded, outcomes), Removals(scan.loaded, outcomes)))
    case AbortScan => s.(scan := None)
  }

  ghost predicate Moves(hash: Text -> Text, granularity: int, s: State, step: Step, s': State) {
    Enabled(granularity, s, step) && s' == Apply(hash, granularity, s, step)
  }

  ghost predicate Run(hash: Text -> Text, granularity: int, states: seq<State>, steps: seq<Step>) {
    && |states| == |steps| + 1
    && states[0].cache == map[] && states[0].scan.None?
    && forall k :: 0 <= k < |steps| ==> Moves(hash, granularity, states[k], steps[k], states[k + 1])
  }

  /** Whether a step answers a request from the cache, and with which hash. */
  ghost function HitOf(granularity: int, s: State, step: Step): Option<Text>
    requires Enabled(granularity, s, step)
  {
    if step.StatFile? then
      var key := s.scan.value.requests[step.request].key;
      CachedHash(s.scan.value.loaded, key, s.files[key].meta)
    else None
  }

  /** The step answers from the cache with a hash other than the current content's. */
  ghost predicate Stale(hash: Text -> Text, granularity: int, s: State, step: Step) {
    && Enabled(granularity, s, step)
    && var hit := HitOf(granularity, s, step);
       && hit.Some?
       && hit.value != hash(s.files[s.scan.value.requests[step.request].key].content)
  }

  // ---------------------------------------------------------------- soundness

  /** An entry cannot mislead: it is older than the racy window, and a file still showing its
      modification time still has its content. */
  ghost predicate SoundEntry(hash: Text -> Text, s: State, key: FileKey, stat: FileStat) {
    && stat.meta.modified < s.now - RACY_WINDOW_NS
    && (key in s.files && s.files[key].meta.modified == stat.meta.modified ==>
          hash(s.files[key].content) == stat.contentHash)
  }

  ghost predicate Sound(hash: Text -> Text, s: State, m: map<FileKey, FileStat>) {
    forall key :: key in m ==> SoundEntry(hash, s, key, m[key])
  }

  ghost predicate SoundOutcome(hash: Text -> Text, s: State, r: Request) {
    r.Done? && r.outcome.stat.Some? ==> SoundEntry(hash, s, r.outcome.key, r.outcome.stat.value)
  }

  ghost predicate Inv(hash: Text -> Text, s: State) {
    && Sound(hash, s, s.cache)
    && (s.scan.Some? ==>
          && s.scan.value.recordedBefore <= s.now - RACY_WINDOW_NS
          && Sound(hash, s, s.scan.value.loaded)
          && forall r <- s.scan.value.requests :: SoundOutcome(hash, s, r))
  }

  /** The environment cannot make a sound entry misleading if stamps are fine enough. */
  lemma EnvironmentKeepsEntry(
    hash: Text -> Text, granularity: int, s: State, step: Step, key: FileKey, stat: FileStat)
    requires granularity <= RACY_WINDOW_NS && Enabled(granularity, s, step)
    requires step.Tick? || step.Write? || step.Delete?
    requires SoundEntry(hash, s, key, stat)
    ensures SoundEntry(hash, Apply(hash, granularity, s, step), key, stat)
  {
  }

  lemma {:induction false} AppliedSound(
    hash: Text -> Text, s: State, m: map<FileKey, FileStat>, upserts: seq<(FileKey, FileStat)>)
    requires Sound(hash, s, m)
    requires forall u <- upserts :: SoundEntry(hash, s, u.0, u.1)
    ensures Sound(hash, s, Applied(m, upserts))
  {
    hide SoundEntry;
    if upserts != [] {
      AppliedSound(hash, s, m, upserts[..|upserts| - 1]);
    }
  }

  lemma {:induction false} UpsertsSound(
    hash: Text -> Text, s: State, loaded: map<FileKey, FileStat>, outcomes: seq<Outcome>)
    requires forall o <- outcomes :: o.stat.Some? ==> SoundEntry(hash, s, o.key, o.stat.value)
    ensures forall u <- Upserts(loaded, outcomes) :: SoundEntry(hash, s, u.0, u.1)
  {
    hide SoundEntry;
    if outcomes != [] {
      UpsertsSound(hash, s, loaded, outcomes[..|outcomes| - 1]);
    }
  }

  lemma StepSound(hash: Text -> Text, granularity: int, s: State, step: Step)
    requires granularity <= RACY_WINDOW_NS && Enabled(granularity, s, step) && Inv(hash, s)
    ensures Inv(hash, Apply(hash, granularity, s, step))
  {
    var s' := Apply(hash, granularity, s, step);
    match step {
      case EndScan =>
        var scan := s.scan.value;
        var outcomes := Outcomes(scan.requests);
        forall o | o in outcomes && o.stat.Some?
          ensures SoundEntry(hash, s, o.key, o.stat.value)
        {
          var i :| 0 <= i < |outcomes| && outcomes[i] == o;
          assert scan.requests[i] in scan.requests;
        }
        UpsertsSound(hash, s, scan.loaded, outcomes);
        AppliedSound(hash, s, s.cache - Removals(scan.loaded, outcomes), Upserts(scan.loaded, outcomes));
      case StatFile(i) =>
        var scan, scan' := s.scan.value, s'.scan.value;
        var key := scan.requests[i].key;
        assert key in scan.loaded ==> SoundEntry(hash, s, key, scan.loaded[key]);
        assert SoundOutcome(hash, s', scan'.requests[i]);
        assert forall r <- scan.requests :: SoundOutcome(hash, s', r);
      case ReadFile(i) =>
        assert SoundOutcome(hash, s', s'.scan.value.requests[i]);
        assert forall r <- s.scan.value.requests :: SoundOutcome(hash, s', r);
      case BeginScan(_, _) =>
      case AbortScan =>
      case _ =>
        forall key, stat | SoundEntry(hash, s, key, stat)
          ensures SoundEntry(hash, s', key, stat)
        {
          EnvironmentKeepsEntry(hash, granularity, s, step, key, stat);
        }
    }
  }

  lemma {:induction false} RunInv(
    hash: Text -> Text, granularity: int, states: seq<State>, steps: seq<Step>, k: nat)
    requires granularity <= RACY_WINDOW_NS && Run(hash, granularity, states, steps) && k <= |steps|
    ensures Inv(hash, states[k])
  {
    hide Apply, Enabled;
    if k > 0 {
      RunInv(hash, granularity, states, steps, k - 1);
      assert Moves(hash, granularity, states[k - 1], steps[k - 1], states[k - 1 + 1]);
      StepSound(hash, granularity, states[k - 1], steps[k - 1]);
    }
  }

  /**
   Stat hits are sound over whole runs: with a granularity of at most the racy window, a hit
   returns the hash of the content the file has at that moment, after any writes and scans,
   including writes between the stat and the read of another scan.
   */
  lemma StatHitIsCurrent(
    hash: Text -> Text, granularity: int, states: seq<State>, steps: seq<Step>, k: nat)
    requires granularity <= RACY_WINDOW_NS
    requires Run(hash, granularity, states, steps) && k < |steps|
    ensures !Stale(hash, granularity, states[k], steps[k])
  {
    hide Apply;
    RunInv(hash, granularity, states, steps, k);
    assert Moves(hash, granularity, states[k], steps[k], states[k + 1]);
  }

  /** A request that a stat or a read has finished, as the scan will report it. */
  predicate Finishes(s: State, step: Step, s': State) {
    && (step.StatFile? || step.ReadFile?) && s.scan.Some? && s'.scan.Some?
    && step.request < |s.scan.value.requests| && step.request < |s'.scan.value.requests|
    && s'.scan.value.requests[step.request].Done?
  }

  /**
   What a scan reports is current: whenever a stat or a read finishes a request, the reported key is
   the requested one and the reported hash is that of the content the file has at that step. A stat
   that does not finish the request leaves it to a read.
   */
  lemma ReportedHashIsCurrent(
    hash: Text -> Text, granularity: int, states: seq<State>, steps: seq<Step>, k: nat)
    requires granularity <= RACY_WINDOW_NS
    requires Run(hash, granularity, states, steps) && k < |steps|
    ensures Finishes(states[k], steps[k], states[k + 1]) ==>
              var o := states[k + 1].scan.value.requests[steps[k].request].outcome;
              && o.key == states[k].scan.value.requests[steps[k].request].key
              && o.key in states[k + 1].files
              && o.hash == hash(states[k + 1].files[o.key].content)
              && (o.hit <==> steps[k].StatFile?)
    ensures steps[k].ReadFile? ==> Finishes(states[k], steps[k], states[k + 1])
  {
    StatHitIsCurrent(hash, granularity, states, steps, k);
    assert Moves(hash, granularity, states[k], steps[k], states[k + 1]);
  }

  /** A stat finishes the request if and only if the loaded cache has the file with just this size,
      modification time and identity; a file that was recorded and not touched is not read again. */
  lemma UnchangedFilesAreNotRead(hash: Text -> Text, granularity: int, s: State, step: Step, s': State)
    requires Moves(hash, granularity, s, step, s') && step.StatFile?
    ensures var key := s.scan.value.requests[step.request].key;
            Finishes(s, step, s') <==>
              key in s.scan.value.loaded && s.scan.value.loaded[key].meta == s.files[key].meta
  {
  }

  // ---------------------------------------------------------------- what a scan remembers

  /** The answers of a finished scan name every file once. */
  ghost predicate DistinctFiles(outcomes: seq<Outcome>) {
    forall i, j :: 0 <= i < j < |outcomes| ==> outcomes[i].key != outcomes[j].key
  }

  /** An answer is remembered exactly when the file was last modified before the racy window, with
      what the stat and the answer said. */
  lemma SettledFilesAreRecorded(
    key: FileKey, meta: Metadata, hash: Text, recordedBefore: int, hit: bool)
    ensures Fingerprinted(key, meta, hash, recordedBefore, hit).stat
            == if meta.modified < recordedBefore then Some(FileStat(meta, hash)) else None
    ensures var o := Fingerprinted(key, meta, hash, recordedBefore, hit);
            o.key == key && o.hash == hash && o.hit == hit
  {
  }

  lemma {:induction false} AppliedRows(
    m: map<FileKey, FileStat>, outcomes: seq<Outcome>, loaded: map<FileKey, FileStat>)
    requires DistinctFiles(outcomes)
    ensures var r := Applied(m, Upserts(loaded, outcomes));
            && (forall o <- outcomes :: IsNews(loaded, o) ==> o.key in r && r[o.key] == o.stat.value)
            && (forall key :: (forall o <- outcomes :: o.key == key ==> !IsNews(loaded, o)) ==>
                  (key in r <==> key in m) && (key in m ==> r[key] == m[key]))
  {
    if outcomes != [] {
      var init, last := outcomes[..|outcomes| - 1], outcomes[|outcomes| - 1];
      assert outcomes == init + [last];
      AppliedRows(m, init, loaded);
      CollectStep(loaded, init, last);
      if IsNews(loaded, last) {
        AppliedLast(m, Upserts(loaded, init), (last.key, last.stat.value));
      }
      hide Applied, Upserts, IsNews;
      assert forall o <- init :: o.key != last.key;
    }
  }

  lemma AppliedLast(m: map<FileKey, FileStat>, upserts: seq<(FileKey, FileStat)>, u: (FileKey, FileStat))
    ensures Applied(m, upserts + [u]) == Applied(m, upserts)[u.0 := u.1]
  {
    assert (upserts + [u])[..|upserts|] == upserts;
  }

  /**
   The cache after a scan over the cache it loaded: a settled file has the row of its answer, any
   other file of a scanned checkout has none, and other checkouts keep their rows.
   */
  lemma CommittedCacheIsExact(cache: map<FileKey, FileStat>, outcomes: seq<Outcome>, key: FileKey)
    requires DistinctFiles(outcomes)
    ensures var after := ApplyDelta(cache, Upserts(cache, outcomes), Removals(cache, outcomes));
            && (forall o <- outcomes :: o.key == key && o.stat.Some? ==>
                  key in after && after[key] == o.stat.value)
            && (key.checkout in Checkouts(outcomes) && key !in Seen(outcomes) ==> key !in after)
            && (key.checkout !in Checkouts(outcomes) ==>
                  (key in after <==> key in cache) && (key in cache ==> after[key] == cache[key]))
  {
    var kept := cache - Removals(cache, outcomes);
    AppliedRows(kept, outcomes, cache);
    hide Applied, Upserts;
    if o :| o in outcomes && o.key == key && o.stat.Some? {
      assert forall x <- outcomes :: x.key == key ==> x == o by { OneAnswer(outcomes, o); }
      assert key in Seen(outcomes);
    }
  }

  lemma OneAnswer(outcomes: seq<Outcome>, o: Outcome)
    requires DistinctFiles(outcomes) && o in outcomes
    ensures forall x <- outcomes :: x.key == o.key ==> x == o
  {
  }

  // ---------------------------------------------------------------- the window is exact

  const KEY := FileKey([], [])
  const STAMP := Metadata(1, 0, [])
  const LATER: int := RACY_WINDOW_NS + 1

  ghost predicate Reachable(hash: Text -> Text, granularity: int, s: State) {
    exists states: seq<State>, steps: seq<Step> ::
      Run(hash, granularity, states, steps) && states[|steps|] == s
  }

  lemma ReachFurther(hash: Text -> Text, granularity: int, s: State, step: Step, s': State)
    requires Reachable(hash, granularity, s) && Moves(hash, granularity, s, step, s')
    ensures Reachable(hash, granularity, s')
  {
    var states, steps :| Run(hash, granularity, states, steps) && states[|steps|] == s;
    ExtendRun(hash, granularity, states, steps, step, s');
  }

  lemma ExtendRun(
    hash: Text -> Text, granularity: int, states: seq<State>, steps: seq<Step>, step: Step, s': State)
    requires Run(hash, granularity, states, steps)
    requires Moves(hash, granularity, states[|steps|], step, s')
    ensures Run(hash, granularity, states + [s'], steps + [step])
  {
    hide Moves;
    var states', steps' := states + [s'], steps + [step];
    forall k | 0 <= k < |steps'|
      ensures Moves(hash, granularity, states'[k], steps'[k], states'[k + 1])
    {
      if k < |steps| {
        assert states'[k] == states[k] && states'[k + 1] == states[k + 1] && steps'[k] == steps[k];
      }
    }
  }

  /** A scan of the one file, from the first write to the recorded entry. */
  lemma FirstScan(hash: Text -> Text, granularity: int, a: Text)
    requires granularity > RACY_WINDOW_NS
    ensures var files := map[KEY := File(a, STAMP)];
            var statted := Scan(1, map[], [Statted(KEY, STAMP)]);
            var entry := FileStat(STAMP, hash(a));
            var done := Scan(1, map[], [Done(Outcome(KEY, hash(a), Some(entry), false))]);
            && Moves(hash, granularity, State(0, map[], map[], None), Write(KEY, File(a, STAMP)),
                     State(0, files, map[], None))
            && Moves(hash, granularity, State(0, files, map[], None), Tick(LATER),
                     State(LATER, files, map[], None))
            && Moves(hash, granularity, State(LATER, files, map[], None), BeginScan(false, [KEY]),
                     State(LATER, files, map[], Some(Scan(1, map[], [Todo(KEY)]))))
            && Moves(hash, granularity, State(LATER, files, map[], Some(Scan(1, map[], [Todo(KEY)]))),
                     StatFile(0), State(LATER, files, map[], Some(statted)))
            && Moves(hash, granularity, State(LATER, files, map[], Some(statted)), ReadFile(0),
                     State(LATER, files, map[], Some(done)))
  {
    var entry := FileStat(STAMP, hash(a));
    var done := Done(Outcome(KEY, hash(a), Some(entry), false));
    assert Todos([KEY]) == [Todo(KEY)];
    assert [Todo(KEY)][0 := Statted(KEY, STAMP)] == [Statted(KEY, STAMP)];
    assert [Statted(KEY, STAMP)][0 := done] == [done];
  }

  lemma FirstEntry(hash: Text -> Text, granularity: int, a: Text)
    ensures var files := map[KEY := File(a, STAMP)];
            var entry := FileStat(STAMP, hash(a));
            var done := Scan(1, map[], [Done(Outcome(KEY, hash(a), Some(entry), false))]);
            Moves(hash, granularity, State(LATER, files, map[], Some(done)), EndScan,
                  State(LATER, files, map[KEY := entry], None))
  {
    var o := Outcome(KEY, hash(a), Some(FileStat(STAMP, hash(a))), false);
    OneOutcome(o);
    hide Upserts, Removals, Applied;
    assert Outcomes([Done(o)]) == [o];
  }

  lemma OneRow(base: map<FileKey, FileStat>, key: FileKey, stat: FileStat)
    ensures Applied(base, [(key, stat)]) == base[key := stat]
  {
    assert [(key, stat)][..0] == [];
  }

  lemma OneUpsert(o: Outcome)
    requires o.stat.Some?
    ensures Upserts(map[], [o]) == [(o.key, o.stat.value)]
  {
    assert [o][..0] == [];
  }

  /** A first outcome becomes the only row of an empty cache. */
  lemma OneOutcome(o: Outcome)
    requires o.stat.Some?
    ensures ApplyDelta(map[], Upserts(map[], [o]), Removals(map[], [o])) == map[o.key := o.stat.value]
  {
    OneUpsert(o);
    var empty: map<FileKey, FileStat> := map[];
    assert Removals(empty, [o]) == {} by { hide Seen, Checkouts; }
    hide Upserts, Applied, Removals, Seen, Checkouts;
    OneRow(empty - Removals(empty, [o]), o.key, o.stat.value);
    assert empty - Removals(empty, [o]) == empty;
  }

  lemma StaleHit(hash: Text -> Text, granularity: int, a: Text, b: Text)
    requires granularity > RACY_WINDOW_NS
    ensures var entry := map[KEY := FileStat(STAMP, hash(a))];
            var rewritten := map[KEY := File(b, STAMP)];
            var scan := Scan(1, entry, [Todo(KEY)]);
            && Moves(hash, granularity, State(LATER, map[KEY := File(a, STAMP)], entry, None),
                     Write(KEY, File(b, STAMP)), State(LATER, rewritten, entry, None))
            && Moves(hash, granularity, State(LATER, rewritten, entry, None), BeginScan(false, [KEY]),
                     State(LATER, rewritten, entry, Some(scan)))
            && Enabled(granularity, State(LATER, rewritten, entry, Some(scan)), StatFile(0))
            && HitOf(granularity, State(LATER, rewritten, entry, Some(scan)), StatFile(0)) == Some(hash(a))
  {
    assert Todos([KEY]) == [Todo(KEY)];
    assert map[KEY := File(a, STAMP)][KEY := File(b, STAMP)] == map[KEY := File(b, STAMP)];
  }

  lemma {:induction false} StartIsReachable(hash: Text -> Text, granularity: int)
    ensures Reachable(hash, granularity, State(0, map[], map[], None))
  {
    var start := State(0, map[], map[], None);
    var none: seq<Step> := [];
    assert Run(hash, granularity, [start], none) && [start][|none|] == start;
  }

  lemma StaleIsReachable(hash: Text -> Text, granularity: int, a: Text, b: Text)
    requires granularity > RACY_WINDOW_NS
    ensures var cache := map[KEY := FileStat(STAMP, hash(a))];
            Reachable(hash, granularity, State(LATER, map[KEY := File(b, STAMP)], cache,
                                               Some(Scan(1, cache, [Todo(KEY)]))))
  {
    FirstScan(hash, granularity, a);
    FirstEntry(hash, granularity, a);
    StaleHit(hash, granularity, a, b);
    StartIsReachable(hash, granularity);
    hide Moves, Reachable, KEY, STAMP;
    var files, rewritten := map[KEY := File(a, STAMP)], map[KEY := File(b, STAMP)];
    var cache := map[KEY := FileStat(STAMP, hash(a))];
    var todo := State(LATER, files, map[], Some(Scan(1, map[], [Todo(KEY)])));
    var statted := State(LATER, files, map[], Some(Scan(1, map[], [Statted(KEY, STAMP)])));
    var done := State(LATER, files, map[], Some(Scan(1, map[],
      [Done(Outcome(KEY, hash(a), Some(FileStat(STAMP, hash(a))), false))])));
    ReachFurther(hash, granularity, State(0, map[], map[], None), Write(KEY, File(a, STAMP)),
                 State(0, files, map[], None));
    ReachFurther(hash, granularity, State(0, files, map[], None), Tick(LATER),
                 State(LATER, files, map[], None));
    ReachFurther(hash, granularity, State(LATER, files, map[], None), BeginScan(false, [KEY]), todo);
    ReachFurther(hash, granularity, todo, StatFile(0), statted);
    ReachFurther(hash, granularity, statted, ReadFile(0), done);
    ReachFurther(hash, granularity, done, EndScan, State(LATER, files, cache, None));
    ReachFurther(hash, granularity, State(LATER, files, cache, None), Write(KEY, File(b, STAMP)),
                 State(LATER, rewritten, cache, None));
    ReachFurther(hash, granularity, State(LATER, rewritten, cache, None), BeginScan(false, [KEY]),
                 State(LATER, rewritten, cache, Some(Scan(1, cache, [Todo(KEY)]))));
  }

  lemma StaleBreaks(hash: Text -> Text, granularity: int, s: State, step: Step)
    requires Reachable(hash, granularity, s) && Stale(hash, granularity, s, step)
    ensures exists states: seq<State>, steps: seq<Step>, k: nat ::
              && Run(hash, granularity, states, steps) && k < |steps|
              && Stale(hash, granularity, states[k], steps[k])
  {
    var states, steps :| Run(hash, granularity, states, steps) && states[|steps|] == s;
    var end := Apply(hash, granularity, s, step);
    ExtendRun(hash, granularity, states, steps, step, end);
    var states', steps', k := states + [end], steps + [step], |steps|;
    assert states'[k] == s && steps'[k] == step;
  }

  /**
   The window is exactly as wide as it must be: with any coarser granularity some run answers a
   request with the hash of content that has been overwritten.
   */
  lemma CoarserStampsBreakTheCache(hash: Text -> Text, granularity: int, a: Text, b: Text)
    requires granularity > RACY_WINDOW_NS && hash(a) != hash(b)
    ensures exists states: seq<State>, steps: seq<Step>, k: nat ::
              && Run(hash, granularity, states, steps) && k < |steps|
              && Stale(hash, granularity, states[k], steps[k])
  {
    StaleHit(hash, granularity, a, b);
    StaleIsReachable(hash, granularity, a, b);
    var cache := map[KEY := FileStat(STAMP, hash(a))];
    var last := State(LATER, map[KEY := File(b, STAMP)], cache, Some(Scan(1, cache, [Todo(KEY)])));
    assert Stale(hash, granularity, last, StatFile(0));
    StaleBreaks(hash, granularity, last, StatFile(0));
  }
}
