/** Text, results, machine limits, orders and the library's stable sort. */
module Basics {

  type Byte = b: int | 0 <= b < 256

  /** Rust strings and byte vectors are both byte sequences here; text is its UTF-8 encoding. */
  type Text = seq<Byte>

  datatype Option<+T> = None | Some(value: T)

  datatype Result<+T, +E> = Ok(value: T) | Err(error: E)

  const I64_MAX: nat := 0x7fff_ffff_ffff_ffff
  const U64_MAX: nat := 0xffff_ffff_ffff_ffff

  function Ascii(s: string): (t: Text)
    ensures |t| == |s|
  {
    seq(|s|, i requires 0 <= i < |s| => s[i] as int % 256)
  }

  lemma SameMembers<T>(a: seq<T>, b: seq<T>)
    requires multiset(a) == multiset(b)
    ensures forall x :: x in a <==> x in b
  {
    assert forall x :: x in a <==> x in multiset(a);
    assert forall x :: x in b <==> x in multiset(b);
  }

  // ---------------------------------------------------------------- text order

  datatype Order = Less | Equal | Greater

  function CompareInt(a: int, b: int): Order {
    if a < b then Less else if a == b then Equal else Greater
  }

  function CompareText(a: seq<int>, b: seq<int>): Order {
    if a == [] then (if b == [] then Equal else Less)
    else if b == [] then Greater
    else Then(CompareInt(a[0], b[0]), CompareText(a[1..], b[1..]))
  }

  function Then(first: Order, second: Order): Order {
    if first == Equal then second else first
  }

  function Flip(o: Order): Order {
    match o case Less => Greater case Equal => Equal case Greater => Less
  }

  lemma {:induction false} TextOrder(a: seq<int>, b: seq<int>)
    ensures CompareText(a, b) == Equal <==> a == b
    ensures CompareText(b, a) == Flip(CompareText(a, b))
  {
    if a != [] && b != [] {
      TextOrder(a[1..], b[1..]);
      assert a == [a[0]] + a[1..] && b == [b[0]] + b[1..];
    }
  }

  lemma {:induction false} TextTransitive(a: seq<int>, b: seq<int>, c: seq<int>)
    requires CompareText(a, b) != Greater && CompareText(b, c) != Greater
    ensures CompareText(a, c) != Greater
    ensures CompareText(a, c) == Equal ==> CompareText(a, b) == Equal && CompareText(b, c) == Equal
  {
    if a != [] && b != [] && c != [] && a[0] == b[0] == c[0] {
      TextTransitive(a[1..], b[1..], c[1..]);
    }
  }

  /** Transitivity of `Then` for two components that are each total preorders on the triple. */
  lemma ThenTransitive(ab: Order, bc: Order, ac: Order, ab': Order, bc': Order, ac': Order)
    requires Composes(ab, bc, ac) && Composes(ab', bc', ac')
    ensures Composes(Then(ab, ab'), Then(bc, bc'), Then(ac, ac'))
  {
  }

  predicate Composes(ab: Order, bc: Order, ac: Order) {
    ab != Greater && bc != Greater ==>
      ac != Greater && (ac == Equal ==> ab == Equal && bc == Equal)
                    && (ab == Equal && bc == Equal ==> ac == Equal)
  }

  lemma TextComposes(a: seq<int>, b: seq<int>, c: seq<int>)
    ensures Composes(CompareText(a, b), CompareText(b, c), CompareText(a, c))
  {
    if CompareText(a, b) != Greater && CompareText(b, c) != Greater {
      TextTransitive(a, b, c);
    }
    TextOrder(a, b); TextOrder(b, c); TextOrder(a, c);
  }

  // ---------------------------------------------------------------- sorting

  ghost predicate TotalOrder<T(!new)>(le: (T, T) -> bool) {
    && (forall a, b :: le(a, b) || le(b, a))
    && (forall a, b, c :: le(a, b) && le(b, c) ==> le(a, c))
  }

  predicate InOrder<T(!new)>(le: (T, T) -> bool, xs: seq<T>) {
    forall i, j :: 0 <= i < j < |xs| ==> le(xs[i], xs[j])
  }

  function InsertBy<T>(le: (T, T) -> bool, x: T, xs: seq<T>): seq<T> {
    if xs == [] || le(x, xs[0]) then [x] + xs else [xs[0]] + InsertBy(le, x, xs[1..])
  }

  /** The library's stable sort. */
  function SortBy<T>(le: (T, T) -> bool, xs: seq<T>): seq<T> {
    if xs == [] then [] else InsertBy(le, xs[0], SortBy(le, xs[1..]))
  }

  lemma {:induction false} InsertByMembers<T>(le: (T, T) -> bool, x: T, xs: seq<T>)
    ensures multiset(InsertBy(le, x, xs)) == multiset([x] + xs)
  {
    if xs != [] && !le(x, xs[0]) {
      InsertByMembers(le, x, xs[1..]);
      assert xs == [xs[0]] + xs[1..];
    }
  }

  lemma {:induction false} InsertKeepsOrder<T(!new)>(le: (T, T) -> bool, x: T, xs: seq<T>)
    requires TotalOrder(le) && InOrder(le, xs)
    ensures InOrder(le, InsertBy(le, x, xs))
  {
    if xs != [] && !le(x, xs[0]) {
      InsertKeepsOrder(le, x, xs[1..]);
      var rest := InsertBy(le, x, xs[1..]);
      InsertByMembers(le, x, xs[1..]);
      assert multiset(rest) == multiset{x} + multiset(xs[1..]);
      forall j | 0 <= j < |rest|
        ensures le(xs[0], rest[j])
      {
        assert rest[j] in multiset(rest);
        assert rest[j] == x || rest[j] in xs[1..];
      }
    }
  }

  lemma {:induction false} SortByPermutes<T(!new)>(le: (T, T) -> bool, xs: seq<T>)
    requires TotalOrder(le)
    ensures InOrder(le, SortBy(le, xs))
    ensures multiset(SortBy(le, xs)) == multiset(xs)
  {
    if xs != [] {
      SortByPermutes(le, xs[1..]);
      InsertKeepsOrder(le, xs[0], SortBy(le, xs[1..]));
      InsertByMembers(le, xs[0], SortBy(le, xs[1..]));
      assert xs == [xs[0]] + xs[1..];
    }
  }
}
