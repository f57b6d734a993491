/** The checkpoint cache: a memo of extracted batches, bounded by evicting the least recently used. */
module CheckpointCache {
  import opened Basics
  import opened Artifacts


  /** What the cache key hashes: the whole fingerprint, the budget and the extractor version. */
  datatype CacheKey = CacheKey(source: Fingerprint, budget: Text, version: Text)

  function KeyFor(b: StoredBatch): CacheKey {
    CacheKey(b.source, b.budget, b.version)
  }

  datatype Row = Row(batch: StoredBatch, size: nat, lastAccess: nat)

  type Rows = map<CacheKey, Row>

  /** Environment of the table: the encoded header length and the hashed key text. */
  datatype Encoding = Encoding(headerLength: StoredBatch -> nat, id: CacheKey -> Text)

  ghost predicate GoodEncoding(e: Encoding) {
    && (forall b :: e.headerLength(b) > 0)
    && (forall x, y :: e.id(x) == e.id(y) ==> x == y)
  }

  function SizeOf(e: Encoding, b: StoredBatch): nat {
    e.headerLength(b) + |b.payload|
  }

  predicate Fits(e: Encoding, b: StoredBatch, quota: nat) {
    SizeOf(e, b) <= quota && SizeOf(e, b) <= I64_MAX
  }

  // ---------------------------------------------------------------- eviction

  /** `ORDER BY last_access_unix_ms, cache_key`. */
  predicate Older(e: Encoding, rows: Rows, a: CacheKey, b: CacheKey)
    requires a in rows && b in rows
  {
    || rows[a].lastAccess < rows[b].lastAccess
    || (rows[a].lastAccess == rows[b].lastAccess && CompareText(e.id(a), e.id(b)) == Less)
  }

  /** All keys of the table, oldest first. */
  ghost predicate OldestFirst(e: Encoding, rows: Rows, keys: seq<CacheKey>) {
    && (forall k :: k in keys <==> k in rows)
    && (forall i, j :: 0 <= i < j < |keys| ==> Older(e, rows, keys[i], keys[j]))
  }

  ghost function SizeSum(rows: Rows, keys: seq<CacheKey>): nat
    requires forall k <- keys :: k in rows
  {
    if keys == [] then 0 else rows[keys[0]].size + SizeSum(rows, keys[1..])
  }

  lemma OlderIsTransitive(e: Encoding, rows: Rows, a: CacheKey, b: CacheKey, c: CacheKey)
    requires a in rows && b in rows && c in rows && Older(e, rows, a, b) && Older(e, rows, b, c)
    ensures Older(e, rows, a, c)
  {
    TextComposes(e.id(a), e.id(b), e.id(c));
  }

  lemma OlderIsTotal(e: Encoding, rows: Rows, a: CacheKey, b: CacheKey)
    requires GoodEncoding(e) && a in rows && b in rows && a != b
    ensures Older(e, rows, a, b) || Older(e, rows, b, a)
  {
    TextOrder(e.id(a), e.id(b));
  }

  /** The oldest of some rows. */
  method Oldest(e: Encoding, rows: Rows, left: set<CacheKey>) returns (oldest: CacheKey)
    requires GoodEncoding(e) && left != {} && left <= rows.Keys
    ensures oldest in left && forall k :: k in left && k != oldest ==> Older(e, rows, oldest, k)
  {
    hide GoodEncoding, Older;
    oldest :| oldest in left;
    var todo := left - {oldest};
    while todo != {}
      invariant todo <= left && oldest in left && oldest !in todo
      invariant forall k :: k in left && k !in todo && k != oldest ==> Older(e, rows, oldest, k)
    {
      var k :| k in todo;
      OlderIsTotal(e, rows, oldest, k);
      todo := todo - {k};
      if !Older(e, rows, oldest, k) {
        forall x | x in left && x !in todo && x != k && x != oldest
          ensures Older(e, rows, k, x)
        {
          OlderIsTransitive(e, rows, k, oldest, x);
        }
        oldest := k;
      }
    }
  }

  /** The cursor of the eviction query. */
  method Cursor(e: Encoding, rows: Rows) returns (keys: seq<CacheKey>)
    requires GoodEncoding(e)
    ensures OldestFirst(e, rows, keys)
  {
    hide GoodEncoding, Older;
    keys := [];
    var left := rows.Keys;
    while left != {}
      invariant left <= rows.Keys
      invariant forall k :: k in keys <==> k in rows && k !in left
      invariant forall i, j :: 0 <= i < j < |keys| ==> Older(e, rows, keys[i], keys[j])
      invariant forall i, k :: 0 <= i < |keys| && k in left ==> Older(e, rows, keys[i], k)
    {
      var oldest := Oldest(e, rows, left);
      keys := keys + [oldest];
      left := left - {oldest};
    }
  }

  /** Removing the first `n` rows leaves at most the quota, and no shorter prefix does. */
  ghost predicate ShortestPrefix(rows: Rows, keys: seq<CacheKey>, quota: nat, n: nat)
    requires forall k <- keys :: k in rows
  {
    && n <= |keys|
    && SizeSum(rows, keys[n..]) <= quota
    && forall m :: 0 <= m < n ==> SizeSum(rows, keys[m..]) > quota
  }

  function Restrict(rows: Rows, keys: seq<CacheKey>): Rows {
    map k | k in rows && k in keys :: rows[k]
  }

  /** The table without its shortest oldest prefix that brings the total to quota. */
  ghost predicate EvictedTo(e: Encoding, rows: Rows, quota: nat, kept: Rows) {
    exists keys, n: nat ::
      && OldestFirst(e, rows, keys) && ShortestPrefix(rows, keys, quota, n)
      && kept == Restrict(rows, keys[n..])
  }

  /** `evict_to_quota`: drops exactly the shortest oldest prefix that brings the total to quota. */
  method Evict(e: Encoding, rows: Rows, quota: nat) returns (kept: Rows)
    requires GoodEncoding(e)
    ensures EvictedTo(e, rows, quota, kept)
  {
    hide GoodEncoding, Older, OldestFirst;
    var cursor := Cursor(e, rows);
    assert forall k :: k in cursor <==> k in rows by { CursorIsComplete(e, rows, cursor); }
    var total := 0;
    var i := |cursor|;
    while i > 0
      invariant 0 <= i <= |cursor| && total == SizeSum(rows, cursor[i..])
    {
      i := i - 1;
      assert cursor[i..][1..] == cursor[i + 1..];
      total := total + rows[cursor[i]].size;
    }
    assert cursor[0..] == cursor;
    var victims := 0;
    while total > quota && victims < |cursor|
      invariant 0 <= victims <= |cursor| && total == SizeSum(rows, cursor[victims..])
      invariant forall m :: 0 <= m < victims ==> SizeSum(rows, cursor[m..]) > quota
    {
      assert cursor[victims..][1..] == cursor[victims + 1..];
      total := total - rows[cursor[victims]].size;
      victims := victims + 1;
    }
    kept := Restrict(rows, cursor[victims..]);
    assert ShortestPrefix(rows, cursor, quota, victims);
  }

  lemma CursorIsComplete(e: Encoding, rows: Rows, keys: seq<CacheKey>)
    requires OldestFirst(e, rows, keys)
    ensures forall k :: k in keys <==> k in rows
  {
  }

  lemma OlderIsAntisymmetric(e: Encoding, rows: Rows, a: CacheKey, b: CacheKey)
    requires a in rows && b in rows && Older(e, rows, a, b)
    ensures !Older(e, rows, b, a)
  {
    TextOrder(e.id(a), e.id(b));
  }

  /** Keys in age order are determined by their set. */
  lemma {:induction false} OneAgeOrder(e: Encoding, rows: Rows, a: seq<CacheKey>, b: seq<CacheKey>)
    requires forall k <- a :: k in rows
    requires forall k :: k in a <==> k in b
    requires forall i, j :: 0 <= i < j < |a| ==> Older(e, rows, a[i], a[j])
    requires forall i, j :: 0 <= i < j < |b| ==> b[i] in rows && b[j] in rows && Older(e, rows, b[i], b[j])
    ensures a == b
  {
    hide Older;
    assert b != [] ==> b[0] in b;
    if a != [] {
      assert a[0] in b && b[0] in a;
      var i :| 0 <= i < |b| && b[i] == a[0];
      var j :| 0 <= j < |a| && a[j] == b[0];
      if i > 0 && j > 0 {
        assert Older(e, rows, b[0], b[i]) && Older(e, rows, a[0], a[j]);
        OlderIsAntisymmetric(e, rows, a[0], b[0]);
      }
      assert a[0] == b[0];
      HeadIsNotInTail(e, rows, a);
      HeadIsNotInTail(e, rows, b);
      assert a == [a[0]] + a[1..] && b == [b[0]] + b[1..];
      forall k
        ensures k in a[1..] <==> k in b[1..]
      {
        assert k in a <==> k == a[0] || k in a[1..];
        assert k in b <==> k == b[0] || k in b[1..];
      }
      OneAgeOrder(e, rows, a[1..], b[1..]);
    }
  }

  lemma HeadIsNotInTail(e: Encoding, rows: Rows, a: seq<CacheKey>)
    requires a != [] && forall k <- a :: k in rows
    requires forall i, j :: 0 <= i < j < |a| ==> Older(e, rows, a[i], a[j])
    ensures a[0] !in a[1..]
  {
    if a[0] in a[1..] {
      var j :| 0 < j < |a| && a[j] == a[0];
      OlderIsAntisymmetric(e, rows, a[0], a[j]);
    }
  }

  /** Eviction is determined by ages, sizes and quota. */
  lemma EvictionIsDetermined(e: Encoding, rows: Rows, quota: nat, a: Rows, b: Rows)
    requires EvictedTo(e, rows, quota, a) && EvictedTo(e, rows, quota, b)
    ensures a == b
  {
    var keys, m: nat :| OldestFirst(e, rows, keys) && ShortestPrefix(rows, keys, quota, m)
                        && a == Restrict(rows, keys[m..]);
    var keys', n: nat :| OldestFirst(e, rows, keys') && ShortestPrefix(rows, keys', quota, n)
                         && b == Restrict(rows, keys'[n..]);
    OneAgeOrder(e, rows, keys, keys');
    hide OldestFirst, Restrict, ShortestPrefix;
    OneShortestPrefix(rows, keys, quota, m, n);
  }

  lemma OneShortestPrefix(rows: Rows, keys: seq<CacheKey>, quota: nat, m: nat, n: nat)
    requires forall k <- keys :: k in rows
    requires ShortestPrefix(rows, keys, quota, m) && ShortestPrefix(rows, keys, quota, n)
    ensures m == n
  {
  }

  /** The removed rows are older than every kept row. */
  lemma EvictsTheOldest(
    e: Encoding, rows: Rows, quota: nat, after: Rows, gone: CacheKey, kept: CacheKey)
    requires EvictedTo(e, rows, quota, after)
    requires gone in rows && gone !in after && kept in after
    ensures kept in rows && after[kept] == rows[kept] && Older(e, rows, gone, kept)
  {
    hide Older;
    var keys, n: nat :| OldestFirst(e, rows, keys) && ShortestPrefix(rows, keys, quota, n)
                        && after == Restrict(rows, keys[n..]);
    assert gone in keys;
    var i :| 0 <= i < |keys| && keys[i] == gone;
    var j :| 0 <= j < |keys[n..]| && keys[n..][j] == kept;
    assert keys[n + j] == kept;
    assert forall m :: n <= m < |keys| ==> keys[n..][m - n] == keys[m];
    assert i < n;
  }

  // ---------------------------------------------------------------- the memo

  /** What the cache may remember: the last batch put under each key that fitted the quota. */
  function Remembered(
    e: Encoding, memo: map<CacheKey, StoredBatch>, batches: seq<StoredBatch>, quota: nat)
    : map<CacheKey, StoredBatch>
  {
    if batches == [] then memo else
      var last := batches[|batches| - 1];
      var before := Remembered(e, memo, batches[..|batches| - 1], quota);
      if Fits(e, last, quota) then before[KeyFor(last) := last] else before
  }

  /** The table after the inserts of a put. */
  function WrittenRows(e: Encoding, rows: Rows, batches: seq<StoredBatch>, quota: nat, now: nat): Rows {
    if batches == [] then rows else
      var last := batches[|batches| - 1];
      var before := WrittenRows(e, rows, batches[..|batches| - 1], quota, now);
      if Fits(e, last, quota) then before[KeyFor(last) := Row(last, SizeOf(e, last), now)] else before
  }

  /** How many batches were written before eviction. */
  function Written(e: Encoding, batches: seq<StoredBatch>, quota: nat): nat {
    if batches == [] then 0 else
      Written(e, batches[..|batches| - 1], quota) + (if Fits(e, batches[|batches| - 1], quota) then 1 else 0)
  }

  function Requests(fps: seq<Fingerprint>, budget: Text, version: Text): set<CacheKey> {
    set fp | fp in fps :: CacheKey(fp, budget, version)
  }

  predicate Answers(rows: Rows, fp: Fingerprint, budget: Text, version: Text, maximum: nat) {
    var k := CacheKey(fp, budget, version);
    k in rows && |rows[k].batch.payload| <= maximum
  }

  /** The batches a load returns, in request order. */
  function Found(rows: Rows, fps: seq<Fingerprint>, budget: Text, version: Text, maximum: nat)
    : seq<StoredBatch>
  {
    if fps == [] then [] else
      var last := fps[|fps| - 1];
      Found(rows, fps[..|fps| - 1], budget, version, maximum)
      + (if Answers(rows, last, budget, version, maximum)
         then [rows[CacheKey(last, budget, version)].batch] else [])
  }

  /** Requested rows are touched, or removed when their payload is over the maximum. */
  function RowsAfterLoad(rows: Rows, requests: set<CacheKey>, maximum: nat, now: nat): Rows {
    map k | k in rows && (k in requests ==> |rows[k].batch.payload| <= maximum) ::
      if k in requests then rows[k].(lastAccess := now) else rows[k]
  }

  lemma RowsAfterOne(rows: Rows, requests: set<CacheKey>, key: CacheKey, maximum: nat, now: nat)
    ensures var before := RowsAfterLoad(rows, requests, maximum, now);
            && (key in before ==> key in rows && before[key].batch == rows[key].batch)
            && (key in rows && |rows[key].batch.payload| <= maximum ==> key in before)
            && RowsAfterLoad(rows, requests + {key}, maximum, now)
               == if key !in before then before
                  else if |before[key].batch.payload| > maximum then before - {key}
                  else before[key := before[key].(lastAccess := now)]
  {
  }

  /** One more request, as the loop sees the table at that point. */
  lemma LoadStep(
    rows: Rows, fps: seq<Fingerprint>, fp: Fingerprint, budget: Text, version: Text, maximum: nat,
    now: nat)
    ensures var key := CacheKey(fp, budget, version);
            var before := RowsAfterLoad(rows, Requests(fps, budget, version), maximum, now);
            var after := RowsAfterLoad(rows, Requests(fps + [fp], budget, version), maximum, now);
            var found := Found(rows, fps, budget, version, maximum);
            var more := Found(rows, fps + [fp], budget, version, maximum);
            if key !in before then after == before && more == found
            else if |before[key].batch.payload| > maximum then after == before - {key} && more == found
            else after == before[key := before[key].(lastAccess := now)]
                 && more == found + [before[key].batch]
  {
    RequestsAppend(fps, fp, budget, version);
    FoundAppend(rows, fps, fp, budget, version, maximum);
    RowsAfterOne(rows, Requests(fps, budget, version), CacheKey(fp, budget, version), maximum, now);
    hide Requests, Found, RowsAfterLoad;
  }

  lemma LoadKeepsBatches(rows: Rows, requests: set<CacheKey>, maximum: nat, now: nat)
    ensures var after := RowsAfterLoad(rows, requests, maximum, now);
            forall k :: k in after ==> k in rows && after[k].batch == rows[k].batch
  {
  }

  lemma LoadNothing(rows: Rows, budget: Text, version: Text, maximum: nat, now: nat)
    ensures Requests([], budget, version) == {}
    ensures Found(rows, [], budget, version, maximum) == []
    ensures RowsAfterLoad(rows, {}, maximum, now) == rows
  {
  }

  lemma FoundAppend(
    rows: Rows, fps: seq<Fingerprint>, fp: Fingerprint, budget: Text, version: Text, maximum: nat)
    ensures var before := Found(rows, fps, budget, version, maximum);
            Found(rows, fps + [fp], budget, version, maximum)
            == if Answers(rows, fp, budget, version, maximum)
               then before + [rows[CacheKey(fp, budget, version)].batch] else before
  {
    assert (fps + [fp])[..|fps|] == fps;
  }

  class Cache {
    var rows: Rows
    /** Every accepted put, never forgotten. */
    ghost var memo: map<CacheKey, StoredBatch>

    /** Rows never disagree with the memo. */
    ghost predicate Valid()
      reads this
    {
      forall k :: k in rows ==> k in memo && rows[k].batch == memo[k] && KeyFor(memo[k]) == k
    }

    constructor ()
      ensures Valid() && rows == map[] && memo == map[]
    {
      rows, memo := map[], map[];
    }

    /** `put_batches`: writes what fits, counts it, then evicts the shortest oldest prefix. */
    method Put(e: Encoding, batches: seq<StoredBatch>, quota: nat, now: nat)
      returns (r: Result<nat, ()>)
      requires Valid() && GoodEncoding(e)
      modifies this
      ensures Valid()
      ensures batches == [] ==> r == Ok(0) && rows == old(rows) && memo == old(memo)
      ensures batches != [] && now > I64_MAX ==> r.Err? && rows == old(rows) && memo == old(memo)
      ensures batches != [] && now <= I64_MAX ==>
        var table := WrittenRows(e, old(rows), batches, quota, now);
        && r == Ok(Written(e, batches, quota))
        && memo == Remembered(e, old(memo), batches, quota)
        && EvictedTo(e, table, quota, rows)
    {
      if batches == [] {
        return Ok(0);
      }
      if now > I64_MAX {
        return Err(());
      }
      var table := rows;
      var written := 0;
      var i := 0;
      while i < |batches|
        invariant 0 <= i <= |batches| && written == Written(e, batches[..i], quota)
        invariant rows == old(rows) && table == WrittenRows(e, rows, batches[..i], quota, now)
        invariant memo == Remembered(e, old(memo), batches[..i], quota)
        invariant forall k :: k in table ==>
                    k in memo && table[k].batch == memo[k] && KeyFor(memo[k]) == k
      {
        assert batches[..i + 1][..i] == batches[..i];
        var b := batches[i];
        if Fits(e, b, quota) {
          table := table[KeyFor(b) := Row(b, SizeOf(e, b), now)];
          memo := memo[KeyFor(b) := b];
          written := written + 1;
        }
        i := i + 1;
      }
      assert batches[..i] == batches;
      rows := Evict(e, table, quota);
      return Ok(written);
    }

    /** `load_batches`. A row whose payload is over the maximum is removed, the others touched. */
    method Load(fps: seq<Fingerprint>, budget: Text, version: Text, maximum: nat, now: nat)
      returns (r: Result<seq<StoredBatch>, ()>)
      requires Valid()
      modifies this
      ensures Valid() && memo == old(memo)
      ensures now > I64_MAX ==> r.Err? && rows == old(rows)
      ensures now <= I64_MAX ==> r == Ok(Found(old(rows), fps, budget, version, maximum))
      ensures now <= I64_MAX ==>
                rows == RowsAfterLoad(old(rows), Requests(fps, budget, version), maximum, now)
    {
      if now > I64_MAX {
        return Err(());
      }
      LoadNothing(rows, budget, version, maximum, now);
      hide Requests, Found, RowsAfterLoad;
      var found: seq<StoredBatch> := [];
      var i := 0;
      while i < |fps|
        invariant 0 <= i <= |fps| && memo == old(memo)
        invariant found == Found(old(rows), fps[..i], budget, version, maximum)
        invariant rows == RowsAfterLoad(old(rows), Requests(fps[..i], budget, version), maximum, now)
      {
        var fp := fps[i];
        var key := CacheKey(fp, budget, version);
        assert fps[..i + 1] == fps[..i] + [fp];
        LoadStep(old(rows), fps[..i], fp, budget, version, maximum, now);
        if key in rows {
          if |rows[key].batch.payload| > maximum {
            rows := rows - {key};
          } else {
            found := found + [rows[key].batch];
            rows := rows[key := rows[key].(lastAccess := now)];
          }
        }
        i := i + 1;
      }
      assert fps[..i] == fps;
      LoadKeepsBatches(old(rows), Requests(fps, budget, version), maximum, now);
      return Ok(found);
    }
  }

  lemma RequestsAppend(fps: seq<Fingerprint>, fp: Fingerprint, budget: Text, version: Text)
    ensures Requests(fps + [fp], budget, version)
            == Requests(fps, budget, version) + {CacheKey(fp, budget, version)}
  {
    assert forall x :: x in fps + [fp] <==> x in fps || x == fp;
  }

  /** A load answers with the last accepted put of exactly that fingerprint, budget and version. */
  lemma {:induction false} LoadIsMemo(
    rows: Rows, memo: map<CacheKey, StoredBatch>, fps: seq<Fingerprint>, budget: Text, version: Text,
    maximum: nat)
    requires forall k :: k in rows ==> k in memo && rows[k].batch == memo[k] && KeyFor(memo[k]) == k
    ensures forall b <- Found(rows, fps, budget, version, maximum) ::
              && b.source in fps && b.budget == budget && b.version == version
              && KeyFor(b) in memo && memo[KeyFor(b)] == b
  {
    if fps != [] {
      LoadIsMemo(rows, memo, fps[..|fps| - 1], budget, version, maximum);
      assert fps == fps[..|fps| - 1] + [fps[|fps| - 1]];
    }
  }

  /** The memo of a key is its last put if and only if that put fitted the quota, unless the older
      batch was the same one: an oversized put is skipped and the older batch stays. */
  lemma OversizedPutKeepsOlderBatch(
    e: Encoding, memo: map<CacheKey, StoredBatch>, older: StoredBatch, newer: StoredBatch, quota: nat)
    requires KeyFor(older) == KeyFor(newer) && older != newer
    requires KeyFor(older) in memo && memo[KeyFor(older)] == older
    ensures var after := Remembered(e, memo, [newer], quota);
            KeyFor(newer) in after && after[KeyFor(newer)] == (if Fits(e, newer, quota) then newer else older)
  {
    assert [newer][..0] == [];
  }

  // ---------------------------------------------------------------- sizes are real

  /** Every row is accounted with the bytes of its header and its payload. */
  ghost predicate Measured(e: Encoding, rows: Rows) {
    forall k :: k in rows ==> rows[k].size == e.headerLength(rows[k].batch) + |rows[k].batch.payload|
  }

  lemma {:induction false} PutsAreMeasured(e: Encoding, rows: Rows, batches: seq<StoredBatch>, quota: nat, now: nat)
    requires Measured(e, rows)
    ensures Measured(e, WrittenRows(e, rows, batches, quota, now))
  {
    if batches != [] {
      PutsAreMeasured(e, rows, batches[..|batches| - 1], quota, now);
    }
  }

  /** Payload bytes of some rows. */
  ghost function PayloadBytes(rows: Rows, keys: set<CacheKey>): nat
    requires keys <= rows.Keys
  {
    if keys == {} then 0 else
      var k :| k in keys;
      |rows[k].batch.payload| + PayloadBytes(rows, keys - {k})
  }

  lemma {:induction false} PayloadSplits(rows: Rows, keys: set<CacheKey>, k: CacheKey)
    requires keys <= rows.Keys && k in keys
    ensures PayloadBytes(rows, keys) == |rows[k].batch.payload| + PayloadBytes(rows, keys - {k})
    decreases keys
  {
    var x :| x in keys && PayloadBytes(rows, keys) == |rows[x].batch.payload| + PayloadBytes(rows, keys - {x});
    if x != k {
      PayloadSplits(rows, keys - {x}, k);
      PayloadSplits(rows, keys - {k}, x);
      assert keys - {x} - {k} == keys - {k} - {x};
    }
  }

  function KeySet(keys: seq<CacheKey>): set<CacheKey> {
    set k | k in keys
  }

  lemma KeySetTail(keys: seq<CacheKey>)
    requires keys != [] && forall i, j :: 0 <= i < j < |keys| ==> keys[i] != keys[j]
    ensures keys[0] in KeySet(keys) && KeySet(keys) - {keys[0]} == KeySet(keys[1..])
  {
    assert keys == [keys[0]] + keys[1..];
  }

  lemma {:induction false} PayloadWithinSizes(e: Encoding, rows: Rows, keys: seq<CacheKey>)
    requires Measured(e, rows) && forall k <- keys :: k in rows
    requires forall i, j :: 0 <= i < j < |keys| ==> keys[i] != keys[j]
    ensures KeySet(keys) <= rows.Keys && PayloadBytes(rows, KeySet(keys)) <= SizeSum(rows, keys)
  {
    if keys != [] {
      PayloadWithinSizes(e, rows, keys[1..]);
      KeySetTail(keys);
      assert keys[0] in rows && KeySet(keys) <= rows.Keys;
      PayloadSplits(rows, KeySet(keys), keys[0]);
      hide PayloadBytes, KeySet;
    }
  }

  lemma {:induction false} SamePayload(a: Rows, b: Rows, keys: set<CacheKey>)
    requires keys <= a.Keys && keys <= b.Keys && forall k <- keys :: a[k] == b[k]
    ensures PayloadBytes(a, keys) == PayloadBytes(b, keys)
    decreases keys
  {
    if keys != {} {
      var k :| k in keys && PayloadBytes(a, keys) == |a[k].batch.payload| + PayloadBytes(a, keys - {k});
      SamePayload(a, b, keys - {k});
      PayloadSplits(b, keys, k);
    }
  }

  lemma OldestFirstIsDistinct(e: Encoding, rows: Rows, keys: seq<CacheKey>)
    requires OldestFirst(e, rows, keys)
    ensures forall i, j :: 0 <= i < j < |keys| ==> keys[i] != keys[j]
  {
    forall i, j | 0 <= i < j < |keys|
      ensures keys[i] != keys[j]
    {
      assert Older(e, rows, keys[i], keys[j]);
      TextOrder(e.id(keys[i]), e.id(keys[j]));
    }
  }

  /** After a put, the bytes of all payloads together are within the quota. */
  lemma KeptPayloadIsWithinQuota(e: Encoding, rows: Rows, quota: nat, kept: Rows)
    requires EvictedTo(e, rows, quota, kept) && Measured(e, rows)
    ensures PayloadBytes(kept, kept.Keys) <= quota && Measured(e, kept)
  {
    var keys, n: nat :| OldestFirst(e, rows, keys) && ShortestPrefix(rows, keys, quota, n)
                        && kept == Restrict(rows, keys[n..]);
    OldestFirstIsDistinct(e, rows, keys);
    PayloadWithinSizes(e, rows, keys[n..]);
    assert KeySet(keys[n..]) == kept.Keys;
    SamePayload(rows, kept, kept.Keys);
  }

  /** What fits is kept: without need nothing is evicted. */
  lemma NothingIsEvictedWithinQuota(e: Encoding, rows: Rows, quota: nat, kept: Rows, keys: seq<CacheKey>)
    requires EvictedTo(e, rows, quota, kept) && OldestFirst(e, rows, keys) && SizeSum(rows, keys) <= quota
    ensures kept == rows
  {
    var keys', n: nat :| OldestFirst(e, rows, keys') && ShortestPrefix(rows, keys', quota, n)
                         && kept == Restrict(rows, keys'[n..]);
    OneAgeOrder(e, rows, keys, keys');
    CursorIsComplete(e, rows, keys);
    hide OldestFirst, Older, SizeSum;
    assert keys[0..] == keys;
    assert n == 0;
    AllKept(rows, keys);
  }

  lemma AllKept(rows: Rows, keys: seq<CacheKey>)
    requires forall k :: k in keys <==> k in rows
    ensures Restrict(rows, keys) == rows
  {
  }

  // ---------------------------------------------------------------- ages are real

  /** A row written by a put carries the put's time, any other row its own. */
  lemma {:induction false} WrittenRowsAreNew(
    e: Encoding, rows: Rows, batches: seq<StoredBatch>, quota: nat, now: nat, k: CacheKey)
    ensures var table := WrittenRows(e, rows, batches, quota, now);
            if exists b <- batches :: KeyFor(b) == k && Fits(e, b, quota) then
              k in table && table[k].lastAccess == now && KeyFor(table[k].batch) == k
              && table[k].batch in batches && table[k].size == SizeOf(e, table[k].batch)
            else (k in table <==> k in rows) && (k in rows ==> table[k] == rows[k])
  {
    if batches != [] {
      var init, last := batches[..|batches| - 1], batches[|batches| - 1];
      assert batches == init + [last];
      WrittenRowsAreNew(e, rows, init, quota, now, k);
      hide Fits, SizeOf;
    }
  }

  /** A put evicts none of its own rows before an older one: if one of them goes, every row that stays
      was accessed at the time of the put. */
  lemma OwnRowsGoLast(
    e: Encoding, rows: Rows, batches: seq<StoredBatch>, quota: nat, now: nat, after: Rows, b: StoredBatch,
    kept: CacheKey)
    requires forall k :: k in rows ==> rows[k].lastAccess <= now
    requires EvictedTo(e, WrittenRows(e, rows, batches, quota, now), quota, after)
    requires b in batches && Fits(e, b, quota) && KeyFor(b) !in after && kept in after
    ensures after[kept].lastAccess == now
  {
    var table := WrittenRows(e, rows, batches, quota, now);
    WrittenRowsAreNew(e, rows, batches, quota, now, KeyFor(b));
    WrittenRowsAreNew(e, rows, batches, quota, now, kept);
    EvictsTheOldest(e, table, quota, after, KeyFor(b), kept);
  }

  /** A row that was loaded outlives every row not accessed since: if it goes, every row that stays was
      accessed at that time or later. */
  lemma LoadedRowsGoAfterOlderOnes(
    e: Encoding, rows: Rows, requests: set<CacheKey>, maximum: nat, now: nat, quota: nat, after: Rows,
    loaded: CacheKey, kept: CacheKey)
    requires loaded in requests && loaded in rows && |rows[loaded].batch.payload| <= maximum
    requires EvictedTo(e, RowsAfterLoad(rows, requests, maximum, now), quota, after)
    requires loaded !in after && kept in after
    ensures after[kept].lastAccess >= now
  {
    EvictsTheOldest(e, RowsAfterLoad(rows, requests, maximum, now), quota, after, loaded, kept);
  }

  // ---------------------------------------------------------------- loads find what is there

  /** A load returns exactly the batches of the requested keys whose payload is within the maximum. */
  lemma {:induction false} FoundIsExact(
    rows: Rows, fps: seq<Fingerprint>, budget: Text, version: Text, maximum: nat)
    ensures forall b :: b in Found(rows, fps, budget, version, maximum) <==>
              exists fp <- fps :: var k := CacheKey(fp, budget, version);
                k in rows && |rows[k].batch.payload| <= maximum && b == rows[k].batch
  {
    if fps != [] {
      var init, last := fps[..|fps| - 1], fps[|fps| - 1];
      FoundIsExact(rows, init, budget, version, maximum);
      assert fps == init + [last];
    }
  }

  /** What was put and is still there is loaded: the last fitting batch of its key. */
  lemma {:induction false} PutThenLoad(
    e: Encoding, rows: Rows, batches: seq<StoredBatch>, quota: nat, now: nat, after: Rows, b: StoredBatch,
    maximum: nat)
    requires EvictedTo(e, WrittenRows(e, rows, batches + [b], quota, now), quota, after)
    requires Fits(e, b, quota) && KeyFor(b) in after && |b.payload| <= maximum
    ensures Found(after, [b.source], b.budget, b.version, maximum) == [b]
  {
    var all := batches + [b];
    assert all[..|all| - 1] == batches;
    var table := WrittenRows(e, rows, all, quota, now);
    assert table[KeyFor(b)].batch == b;
    assert after[KeyFor(b)] == table[KeyFor(b)];
    assert [b.source][..0] == [];
  }
}
