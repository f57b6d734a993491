/** Artifacts, their fingerprints and the key order every sorted list of the scan uses. */
module Artifacts {
  import opened Basics

  datatype PathEncoding = UnixBytes | WindowsWide | Utf8

  datatype NativePath = NativePath(encoding: PathEncoding, bytes: Text, display: Text)

  datatype Fingerprint = Fingerprint(
    repo: Text, checkout: Text, path: NativePath, extractor: Text, contentHash: Text, size: nat)

  /** Identity of an artifact inside the scan: the tuple compared by `artifact_key`. */
  datatype Key = Key(repo: Text, checkout: Text, path: NativePath, extractor: Text)

  function KeyOf(fp: Fingerprint): Key {
    Key(fp.repo, fp.checkout, fp.path, fp.extractor)
  }

  /** Checkout ids are computed from the repository id and the checkout path. */
  ghost predicate OneRepoPerCheckout(fps: seq<Fingerprint>) {
    forall a, b :: a in fps && b in fps && a.checkout == b.checkout ==> a.repo == b.repo
  }

  datatype StoredBatch = StoredBatch(
    source: Fingerprint, version: Text, budget: Text, lossy: bool, outputCount: nat, payload: Text)

  // ---------------------------------------------------------------- key order

  function EncodingRank(e: PathEncoding): nat {
    match e case UnixBytes => 0 case WindowsWide => 1 case Utf8 => 2
  }

  /** The derived `Ord` of `(RepoId, CheckoutId, NativePath, &str)`. */
  function CompareKey(a: Key, b: Key): Order {
    Then(CompareText(a.repo, b.repo),
    Then(CompareText(a.checkout, b.checkout),
    Then(CompareInt(EncodingRank(a.path.encoding), EncodingRank(b.path.encoding)),
    Then(CompareText(a.path.bytes, b.path.bytes),
    Then(CompareText(a.path.display, b.path.display),
         CompareText(a.extractor, b.extractor))))))
  }

  predicate KeyLess(a: Key, b: Key) {
    CompareKey(a, b) == Less
  }

  lemma KeyTotal(a: Key, b: Key)
    ensures CompareKey(a, b) == Equal <==> a == b
    ensures CompareKey(b, a) == Flip(CompareKey(a, b))
  {
    TextOrder(a.repo, b.repo);
    TextOrder(a.checkout, b.checkout);
    TextOrder(a.path.bytes, b.path.bytes);
    TextOrder(a.path.display, b.path.display);
    TextOrder(a.extractor, b.extractor);
  }

  lemma KeyTransitive(a: Key, b: Key, c: Key)
    requires !KeyLess(b, a) && !KeyLess(c, b)
    ensures !KeyLess(c, a)
    ensures KeyLess(a, b) || KeyLess(b, c) ==> KeyLess(a, c)
  {
    KeyTotal(a, b); KeyTotal(b, c); KeyTotal(a, c);
    TextComposes(a.repo, b.repo, c.repo);
    TextComposes(a.checkout, b.checkout, c.checkout);
    TextComposes(a.path.bytes, b.path.bytes, c.path.bytes);
    TextComposes(a.path.display, b.path.display, c.path.display);
    TextComposes(a.extractor, b.extractor, c.extractor);
    assert Composes(CompareKey(a, b), CompareKey(b, c), CompareKey(a, c));
  }

  // ---------------------------------------------------------------- sorted lists

  ghost predicate Sorted<T>(key: T -> Key, xs: seq<T>) {
    forall i, j :: 0 <= i < j < |xs| ==> !KeyLess(key(xs[j]), key(xs[i]))
  }

  /** Strictly increasing keys: sorted and without two entries for one artifact. */
  ghost predicate StrictlySorted<T>(key: T -> Key, xs: seq<T>) {
    forall i, j :: 0 <= i < j < |xs| ==> KeyLess(key(xs[i]), key(xs[j]))
  }

  /** Elements with one key, in list order. */
  ghost function WithKey<T>(key: T -> Key, xs: seq<T>, k: Key): seq<T> {
    if xs == [] then []
    else (if key(xs[0]) == k then [xs[0]] else []) + WithKey(key, xs[1..], k)
  }

  ghost predicate DistinctKeys<T>(key: T -> Key, xs: seq<T>) {
    forall i, j :: 0 <= i < j < |xs| ==> key(xs[i]) != key(xs[j])
  }

  function NotAfter<T(!new)>(key: T -> Key): (T, T) -> bool {
    (a, b) => !KeyLess(key(b), key(a))
  }

  /** `slice::sort_by` with `artifact_key`: a stable sort. */
  function StableSort<T(!new)>(key: T -> Key, xs: seq<T>): seq<T> {
    SortBy(NotAfter(key), xs)
  }

  lemma NotAfterIsTotal<T(!new)>(key: T -> Key)
    ensures TotalOrder(NotAfter(key))
  {
    hide CompareKey;
    forall a, b
      ensures NotAfter(key)(a, b) || NotAfter(key)(b, a)
    {
      KeyTotal(key(a), key(b));
    }
    forall a, b, c | NotAfter(key)(a, b) && NotAfter(key)(b, c)
      ensures NotAfter(key)(a, c)
    {
      KeyTransitive(key(a), key(b), key(c));
    }
  }

  lemma SortSorts<T(!new)>(key: T -> Key, xs: seq<T>)
    ensures Sorted(key, StableSort(key, xs))
    ensures multiset(StableSort(key, xs)) == multiset(xs)
  {
    NotAfterIsTotal(key);
    SortByPermutes(NotAfter(key), xs);
    var sorted := StableSort(key, xs);
    forall i, j | 0 <= i < j < |sorted|
      ensures !KeyLess(key(sorted[j]), key(sorted[i]))
    {
      assert NotAfter(key)(sorted[i], sorted[j]);
    }
  }

  lemma {:induction false} InsertStable<T(!new)>(key: T -> Key, x: T, xs: seq<T>, k: Key)
    ensures WithKey(key, InsertBy(NotAfter(key), x, xs), k) == WithKey(key, [x] + xs, k)
  {
    hide CompareKey;
    assert ([x] + xs)[1..] == xs;
    if xs != [] && KeyLess(key(xs[0]), key(x)) {
      InsertStable(key, x, xs[1..], k);
      KeyTotal(key(xs[0]), key(x));
      var rest := InsertBy(NotAfter(key), x, xs[1..]);
      assert ([xs[0]] + rest)[1..] == rest;
      assert ([x] + xs[1..])[1..] == xs[1..];
    }
  }

  /** Entries with equal keys keep their input order. */
  lemma {:induction false} SortIsStable<T(!new)>(key: T -> Key, xs: seq<T>, k: Key)
    ensures WithKey(key, StableSort(key, xs), k) == WithKey(key, xs, k)
  {
    if xs != [] {
      SortIsStable(key, xs[1..], k);
      var rest := StableSort(key, xs[1..]);
      InsertStable(key, xs[0], rest, k);
      assert ([xs[0]] + rest)[1..] == rest;
    }
  }

  lemma {:induction false} InsertStrict<T(!new)>(key: T -> Key, x: T, xs: seq<T>)
    requires StrictlySorted(key, xs) && forall y <- xs :: key(y) != key(x)
    ensures StrictlySorted(key, InsertBy(NotAfter(key), x, xs))
    ensures forall y :: y in InsertBy(NotAfter(key), x, xs) <==> y == x || y in xs
  {
    hide CompareKey;
    if xs != [] {
      KeyTotal(key(xs[0]), key(x));
      assert xs == [xs[0]] + xs[1..];
      if KeyLess(key(xs[0]), key(x)) {
        InsertStrict(key, x, xs[1..]);
        var rest := InsertBy(NotAfter(key), x, xs[1..]);
        forall j | 0 <= j < |rest|
          ensures KeyLess(key(xs[0]), key(rest[j]))
        {
          assert rest[j] in rest;
        }
      } else {
        forall j | 0 <= j < |xs|
          ensures KeyLess(key(x), key(xs[j]))
        {
          KeyTotal(key(x), key(xs[0]));
          if j > 0 {
            KeyTotal(key(xs[0]), key(xs[j]));
            KeyTransitive(key(x), key(xs[0]), key(xs[j]));
          }
        }
      }
    }
  }

  /** Sorting entries with distinct keys gives a strictly sorted list of the same entries. */
  lemma {:induction false} SortDistinct<T(!new)>(key: T -> Key, xs: seq<T>)
    requires DistinctKeys(key, xs)
    ensures StrictlySorted(key, StableSort(key, xs))
    ensures forall x :: x in StableSort(key, xs) <==> x in xs
  {
    hide KeyLess;
    if xs != [] {
      SortDistinct(key, xs[1..]);
      assert xs == [xs[0]] + xs[1..];
      InsertStrict(key, xs[0], StableSort(key, xs[1..]));
    }
  }

  /** Sorting a list that is already strictly sorted changes nothing. */
  lemma {:induction false} SortOfSorted<T(!new)>(key: T -> Key, xs: seq<T>)
    requires StrictlySorted(key, xs)
    ensures StableSort(key, xs) == xs
  {
    if |xs| > 0 {
      SortOfSorted(key, xs[1..]);
      if |xs| > 1 {
        KeyTotal(key(xs[0]), key(xs[1]));
      }
    }
  }

  /** A strictly sorted list is determined by the set of its elements. */
  lemma {:induction false} StrictlySortedUnique<T>(key: T -> Key, xs: seq<T>, ys: seq<T>)
    requires StrictlySorted(key, xs) && StrictlySorted(key, ys)
    requires forall x :: x in xs <==> x in ys
    ensures xs == ys
  {
    assert ys != [] ==> ys[0] in xs;
    if xs != [] {
      assert xs[0] in ys;
      assert ys[0] in xs;
      HeadIsLeast(key, xs, ys[0]);
      HeadIsLeast(key, ys, xs[0]);
      KeyTotal(key(xs[0]), key(ys[0]));
      SameKeySameElement(key, ys, xs[0], ys[0]);
      forall x
        ensures x in xs[1..] <==> x in ys[1..]
      {
        TailMembers(key, xs, x);
        TailMembers(key, ys, x);
      }
      StrictlySortedUnique(key, xs[1..], ys[1..]);
      assert xs == [xs[0]] + xs[1..];
    }
  }

  lemma HeadIsLeast<T>(key: T -> Key, xs: seq<T>, x: T)
    requires StrictlySorted(key, xs) && x in xs
    ensures !KeyLess(key(x), key(xs[0]))
  {
    var i :| 0 <= i < |xs| && xs[i] == x;
    KeyTotal(key(x), key(xs[0]));
    KeyTotal(key(x), key(x));
    if i > 0 { assert KeyLess(key(xs[0]), key(xs[i])); }
  }

  lemma SameKeySameElement<T>(key: T -> Key, xs: seq<T>, x: T, y: T)
    requires StrictlySorted(key, xs) && x in xs && y in xs && key(x) == key(y)
    ensures x == y
  {
    var i :| 0 <= i < |xs| && xs[i] == x;
    var j :| 0 <= j < |xs| && xs[j] == y;
    KeyTotal(key(x), key(y));
    assert !(i < j) && !(j < i);
  }

  lemma TailMembers<T>(key: T -> Key, xs: seq<T>, x: T)
    requires StrictlySorted(key, xs) && xs != []
    ensures x in xs[1..] <==> x in xs && x != xs[0]
  {
    assert xs == [xs[0]] + xs[1..];
    KeyTotal(key(xs[0]), key(xs[0]));
  }
}
