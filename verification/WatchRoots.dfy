/**
 What the watcher asks the operating system to watch: the configuration's directory and every
 repository root, without watching one directory tree twice.
 */
module WatchRoots {
  import opened Basics

  /** An absolute path as its components after the root directory. */
  type Path = seq<Text>

  datatype Mode = Recursive | NonRecursive

  datatype Entry = Entry(path: Path, mode: Mode)

  datatype Repository = Repository(alias: Text, root: Path)

  /** `Path::starts_with`: whole components only. */
  predicate StartsWith(path: Path, base: Path) {
    |base| <= |path| && path[..|base|] == base
  }

  predicate StrictlyUnder(path: Path, base: Path) {
    StartsWith(path, base) && path != base
  }

  /** What an entry reports: the tree under it, or only itself and its direct children. */
  predicate Covers(entry: Entry, path: Path) {
    StartsWith(path, entry.path) && (entry.mode.NonRecursive? ==> |path| <= |entry.path| + 1)
  }

  /** A recursive entry reports every path below it; any other only its directory and direct children. */
  lemma WhatIsReported(base: Path, tail: Path)
    ensures Covers(Entry(base, Recursive), base + tail)
    ensures Covers(Entry(base, NonRecursive), base + tail) <==> |tail| <= 1
    ensures forall path, mode :: Covers(Entry(base, mode), path) ==> path == base + path[|base|..]
  {
    assert (base + tail)[..|base|] == base;
    forall path, mode | Covers(Entry(base, mode), path)
      ensures path == base + path[|base|..]
    {
      assert path == path[..|base|] + path[|base|..];
    }
  }

  predicate Covered(entries: seq<Entry>, path: Path) {
    exists e <- entries :: Covers(e, path)
  }

  /** Some recursive entry lies at or under another recursive entry. */
  predicate HasNestedTrees(entries: seq<Entry>) {
    exists i, j :: 0 <= i < |entries| && 0 <= j < |entries| && i != j
                   && Trees(entries[i], entries[j])
  }

  predicate Trees(upper: Entry, lower: Entry) {
    upper.mode.Recursive? && lower.mode.Recursive? && StartsWith(lower.path, upper.path)
  }

  // ---------------------------------------------------------------- adding one entry

  predicate InsideTree(entries: seq<Entry>, path: Path) {
    exists e <- entries :: e.mode.Recursive? && StartsWith(path, e.path)
  }

  /** Index of the first entry with this path, or the length. */
  function FirstAt(entries: seq<Entry>, path: Path): (i: nat)
    ensures i <= |entries|
    ensures i < |entries| ==> entries[i].path == path
    ensures forall j :: 0 <= j < i ==> entries[j].path != path
  {
    if entries == [] || entries[0].path == path then 0 else 1 + FirstAt(entries[1..], path)
  }

  /** The entries that are not at or under a path, in order. */
  function Retained(entries: seq<Entry>, path: Path): seq<Entry> {
    if entries == [] then []
    else (if StartsWith(entries[0].path, path) then [] else [entries[0]])
         + Retained(entries[1..], path)
  }

  function Added(entries: seq<Entry>, path: Path, mode: Mode): seq<Entry> {
    if InsideTree(entries, path) then entries
    else
      var i := FirstAt(entries, path);
      if i < |entries| then (if mode.Recursive? then entries[i := Entry(path, mode)] else entries)
      else (if mode.Recursive? then Retained(entries, path) else entries) + [Entry(path, mode)]
  }

  /** `add_watch_entry`, with its search, its retain loop and its push. */
  method AddWatchEntry(entries: seq<Entry>, path: Path, mode: Mode) returns (updated: seq<Entry>)
    ensures updated == Added(entries, path, mode)
    ensures forall q :: Covered(updated, q) <==> Covered(entries, q) || Covers(Entry(path, mode), q)
  {
    forall q {
      AddedCoverageIsTheUnion(entries, path, mode, q);
    }
    hide Covered, Covers, StartsWith, Retained;
    updated := entries;
    var n := 0;
    while n < |entries|
      invariant n <= |entries|
      invariant forall j :: 0 <= j < n ==>
                  !(entries[j].mode.Recursive? && StartsWith(path, entries[j].path))
    {
      if entries[n].mode.Recursive? && StartsWith(path, entries[n].path) {
        assert InsideTree(entries, path);
        return;
      }
      n := n + 1;
    }
    var i := 0;
    while i < |entries| && entries[i].path != path
      invariant i <= FirstAt(entries, path)
    {
      i := i + 1;
    }
    if i < |entries| {
      if mode.Recursive? {
        updated := entries[i := Entry(path, mode)];
      }
      return;
    }
    if mode.Recursive? {
      updated := Retain(entries, path);
    }
    updated := updated + [Entry(path, mode)];
  }

  /** `Vec::retain` with the entries outside a tree. */
  method Retain(entries: seq<Entry>, path: Path) returns (kept: seq<Entry>)
    ensures kept == Retained(entries, path)
  {
    hide StartsWith;
    kept := [];
    var k := 0;
    while k < |entries|
      invariant k <= |entries|
      invariant Retained(entries, path) == kept + Retained(entries[k..], path)
    {
      assert entries[k..][1..] == entries[k + 1..];
      if !StartsWith(entries[k].path, path) {
        kept := kept + [entries[k]];
      }
      k := k + 1;
    }
    assert entries[k..] == [];
  }

  lemma {:induction false} RetainedMembers(entries: seq<Entry>, path: Path)
    ensures forall e :: e in Retained(entries, path) <==>
                          e in entries && !StartsWith(e.path, path)
  {
    if entries != [] {
      RetainedMembers(entries[1..], path);
      assert entries == [entries[0]] + entries[1..];
    }
  }

  lemma PrefixTransitive(a: Path, b: Path, c: Path)
    requires StartsWith(b, a) && StartsWith(c, b)
    ensures StartsWith(c, a)
  {
    assert c[..|a|] == c[..|b|][..|a|];
  }

  /** The members after an addition, by the branch taken. */
  lemma AddedMembers(entries: seq<Entry>, path: Path, mode: Mode)
    ensures InsideTree(entries, path) ==> Added(entries, path, mode) == entries
    ensures !InsideTree(entries, path) && mode.Recursive? && Distinct(entries) ==>
              forall e :: e in Added(entries, path, mode) <==>
                            || e == Entry(path, mode)
                            || (e in entries && e.path != path
                                && (FirstAt(entries, path) < |entries| || !StartsWith(e.path, path)))
  {
    RetainedMembers(entries, path);
    var i := FirstAt(entries, path);
    if !InsideTree(entries, path) && mode.Recursive? && i < |entries| {
      var added := Entry(path, mode);
      var after := entries[i := added];
      assert after[i] == added;
      forall e
        ensures Distinct(entries) ==> (e in after <==> e == added || (e in entries && e.path != path))
      {
        if e in after {
          var j :| 0 <= j < |after| && after[j] == e;
          assert j != i ==> entries[j] == e;
        }
        if e in entries && e.path != path {
          var j :| 0 <= j < |entries| && entries[j] == e;
          assert after[j] == e;
        }
      }
    }
  }

  /** Coverage after an addition is the old coverage joined with the new entry's, in every branch
      and for every list of entries. */
  lemma AddedCoverageIsTheUnion(entries: seq<Entry>, path: Path, mode: Mode, q: Path)
    ensures Covered(Added(entries, path, mode), q) <==>
              Covered(entries, q) || Covers(Entry(path, mode), q)
  {
    var added := Entry(path, mode);
    var after := Added(entries, path, mode);
    var i := FirstAt(entries, path);
    if InsideTree(entries, path) {
      var e :| e in entries && e.mode.Recursive? && StartsWith(path, e.path);
      if Covers(added, q) {
        PrefixTransitive(e.path, path, q);
        assert Covers(e, q);
      }
    } else if i < |entries| {
      UpgradeCoverage(entries, i, mode, q);
    } else {
      RetainedMembers(entries, path);
      assert added in after && forall e :: e in after ==> e in entries || e == added;
      if Covered(entries, q) {
        var e :| e in entries && Covers(e, q);
        if e !in after {
          PrefixTransitive(path, e.path, q);
          assert Covers(added, q);
        }
      }
    }
  }

  lemma UpgradeCoverage(entries: seq<Entry>, i: nat, mode: Mode, q: Path)
    requires i < |entries| && entries[i].mode.NonRecursive?
    ensures var added := Entry(entries[i].path, mode);
            var after := if mode.Recursive? then entries[i := added] else entries;
            Covered(after, q) <==> Covered(entries, q) || Covers(added, q)
  {
    var added := Entry(entries[i].path, mode);
    var after := if mode.Recursive? then entries[i := added] else entries;
    assert after[i] in after;
    assert Covers(entries[i], q) ==> Covers(added, q);
    forall j | 0 <= j < |entries| && j != i
      ensures entries[j] in after && after[j] in entries
    {
      assert after[j] == entries[j];
    }
  }

  // ---------------------------------------------------------------- one entry per tree

  predicate Distinct(entries: seq<Entry>) {
    forall i, j :: 0 <= i < j < |entries| ==> entries[i].path != entries[j].path
  }

  /** The entries that ought to be watched: the topmost roots, and the configuration's directory
      unless a root's tree already holds it. */
  predicate Wanted(parent: Option<Path>, roots: seq<Path>, entry: Entry) {
    match entry.mode
    case Recursive =>
      entry.path in roots && forall r <- roots :: !StrictlyUnder(entry.path, r)
    case NonRecursive =>
      parent == Some(entry.path) && forall r <- roots :: !StartsWith(entry.path, r)
  }

  ghost predicate Exact(entries: seq<Entry>, parent: Option<Path>, roots: seq<Path>) {
    Distinct(entries) && forall e :: e in entries <==> Wanted(parent, roots, e)
  }

  lemma ExactMeansUnnested(entries: seq<Entry>, parent: Option<Path>, roots: seq<Path>)
    requires Exact(entries, parent, roots)
    ensures !HasNestedTrees(entries)
  {
    forall i, j | 0 <= i < |entries| && 0 <= j < |entries| && i != j
      ensures !Trees(entries[i], entries[j])
    {
      assert entries[i] in entries && entries[j] in entries;
      assert entries[i].path != entries[j].path;
    }
  }

  /** Every root has a topmost root at or above it. */
  lemma {:induction false} Topmost(roots: seq<Path>, path: Path) returns (top: Path)
    requires path in roots
    ensures top in roots && StartsWith(path, top)
    ensures forall r <- roots :: !StrictlyUnder(top, r)
    decreases |path|
  {
    if r :| r in roots && StrictlyUnder(path, r) {
      top := Topmost(roots, r);
      PrefixTransitive(top, r, path);
    } else {
      top := path;
    }
  }

  /** In an exact list, a path lies inside a watched tree iff some root is at or above it. */
  lemma InsideTreeMeansRootAbove(
    entries: seq<Entry>, parent: Option<Path>, roots: seq<Path>, path: Path)
    requires Exact(entries, parent, roots)
    ensures InsideTree(entries, path) <==> exists r <- roots :: StartsWith(path, r)
  {
    if InsideTree(entries, path) {
      var e :| e in entries && e.mode.Recursive? && StartsWith(path, e.path);
      assert Wanted(parent, roots, e);
    }
    if r :| r in roots && StartsWith(path, r) {
      var top := Topmost(roots, r);
      PrefixTransitive(top, r, path);
      assert Wanted(parent, roots, Entry(top, Recursive));
      assert Entry(top, Recursive) in entries;
    }
  }

  /**
   The upgrade branch forgets to drop the trees under the upgraded entry: it is taken for a root that
   is the configuration's own directory, when roots under that directory came first.
   */
  predicate UpgradeKeepsNested(parent: Option<Path>, roots: seq<Path>, root: Path) {
    && parent == Some(root)
    && (forall r <- roots :: !StartsWith(root, r))
    && exists r <- roots :: StrictlyUnder(r, root)
  }

  /** One more root keeps the list exact if and only if the upgrade case does not arise. */
  lemma AddRootIsExact(entries: seq<Entry>, parent: Option<Path>, roots: seq<Path>, root: Path)
    requires Exact(entries, parent, roots)
    ensures Exact(Added(entries, root, Recursive), parent, roots + [root])
            <==> !UpgradeKeepsNested(parent, roots, root)
  {
    InsideTreeMeansRootAbove(entries, parent, roots, root);
    if InsideTree(entries, root) {
      CoveredRootChangesNothing(entries, parent, roots, root);
    } else if UpgradeKeepsNested(parent, roots, root) {
      UpgradeIsNotExact(entries, parent, roots, root);
    } else {
      NewRootIsExact(entries, parent, roots, root);
    }
  }

  lemma CoveredRootChangesNothing(
    entries: seq<Entry>, parent: Option<Path>, roots: seq<Path>, root: Path)
    requires Exact(entries, parent, roots) && exists r <- roots :: StartsWith(root, r)
    ensures Exact(entries, parent, roots + [root])
  {
    var above :| above in roots && StartsWith(root, above);
    forall e
      ensures Wanted(parent, roots + [root], e) <==> Wanted(parent, roots, e)
    {
      if StartsWith(e.path, root) { PrefixTransitive(above, root, e.path); }
      if e.path == root { assert root in roots || StrictlyUnder(e.path, above); }
      assert forall r :: r in roots + [root] <==> r in roots || r == root;
      if StrictlyUnder(e.path, root) { assert StrictlyUnder(e.path, above); }
    }
  }

  lemma UpgradeIsNotExact(entries: seq<Entry>, parent: Option<Path>, roots: seq<Path>, root: Path)
    requires Exact(entries, parent, roots) && UpgradeKeepsNested(parent, roots, root)
    ensures !Exact(Added(entries, root, Recursive), parent, roots + [root])
  {
    InsideTreeMeansRootAbove(entries, parent, roots, root);
    AddedMembers(entries, root, Recursive);
    assert Entry(root, NonRecursive) in entries;
    assert FirstAt(entries, root) < |entries|;
    var below :| below in roots && StrictlyUnder(below, root);
    var top := Topmost(roots, below);
    assert Wanted(parent, roots, Entry(top, Recursive));
    assert Entry(top, Recursive) in Added(entries, root, Recursive);
    assert top != root;
    ComparablePrefixes(below, top, root);
    assert StrictlyUnder(top, root);
    assert root in roots + [root];
    assert !Wanted(parent, roots + [root], Entry(top, Recursive));
  }

  lemma ComparablePrefixes(path: Path, a: Path, b: Path)
    requires StartsWith(path, a) && StartsWith(path, b)
    ensures StartsWith(a, b) || StartsWith(b, a)
  {
    if |a| <= |b| {
      assert b[..|a|] == path[..|b|][..|a|] == path[..|a|];
    } else {
      assert a[..|b|] == path[..|a|][..|b|] == path[..|b|];
    }
  }

  lemma NewRootIsExact(entries: seq<Entry>, parent: Option<Path>, roots: seq<Path>, root: Path)
    requires Exact(entries, parent, roots) && !UpgradeKeepsNested(parent, roots, root)
    requires forall r <- roots :: !StartsWith(root, r)
    ensures Exact(Added(entries, root, Recursive), parent, roots + [root])
  {
    InsideTreeMeansRootAbove(entries, parent, roots, root);
    AddedMembers(entries, root, Recursive);
    var after := Added(entries, root, Recursive);
    var i := FirstAt(entries, root);
    assert forall r :: r in roots + [root] <==> r in roots || r == root;
    forall e
      ensures e in after <==> Wanted(parent, roots + [root], e)
    {
      assert e in entries <==> Wanted(parent, roots, e);
      if i < |entries| {
        assert entries[i] in entries;
        assert parent == Some(root);
      }
      if e.mode.NonRecursive? && e.path == root { assert root in roots + [root]; }
    }
    AddedDistinct(entries, root);
  }

  lemma AddedDistinct(entries: seq<Entry>, root: Path)
    requires Distinct(entries)
    ensures Distinct(Added(entries, root, Recursive))
  {
    var i := FirstAt(entries, root);
    if !InsideTree(entries, root) && i == |entries| {
      RetainedDistinct(entries, root);
      RetainedMembers(entries, root);
      var kept := Retained(entries, root);
      forall j | 0 <= j < |kept|
        ensures kept[j].path != root
      {
        assert kept[j] in kept;
      }
    }
  }

  lemma {:induction false} RetainedDistinct(entries: seq<Entry>, path: Path)
    requires Distinct(entries)
    ensures Distinct(Retained(entries, path))
  {
    if entries != [] {
      RetainedDistinct(entries[1..], path);
      RetainedMembers(entries[1..], path);
      var rest := Retained(entries[1..], path);
      forall j | 0 <= j < |rest|
        ensures rest[j].path != entries[0].path
      {
        assert rest[j] in entries[1..];
      }
    }
  }

  // ---------------------------------------------------------------- orders

  /** `Path` comparison: component by component. */
  function ComparePath(a: Path, b: Path): Order {
    if a == [] then (if b == [] then Equal else Less)
    else if b == [] then Greater
    else Then(CompareText(a[0], b[0]), ComparePath(a[1..], b[1..]))
  }

  lemma {:induction false} PathOrder(a: Path, b: Path)
    ensures ComparePath(a, b) == Equal <==> a == b
    ensures ComparePath(b, a) == Flip(ComparePath(a, b))
  {
    if a != [] && b != [] {
      TextOrder(a[0], b[0]);
      PathOrder(a[1..], b[1..]);
      assert a == [a[0]] + a[1..] && b == [b[0]] + b[1..];
    }
  }

  lemma {:induction false} PathComposes(a: Path, b: Path, c: Path)
    ensures Composes(ComparePath(a, b), ComparePath(b, c), ComparePath(a, c))
  {
    if a != [] && b != [] && c != [] {
      TextComposes(a[0], b[0], c[0]);
      PathComposes(a[1..], b[1..], c[1..]);
      ThenTransitive(CompareText(a[0], b[0]), CompareText(b[0], c[0]), CompareText(a[0], c[0]),
                     ComparePath(a[1..], b[1..]), ComparePath(b[1..], c[1..]),
                     ComparePath(a[1..], c[1..]));
    }
  }

  /** A directory sorts before everything strictly under it. */
  lemma {:induction false} ParentsSortFirst(path: Path, base: Path)
    requires StrictlyUnder(path, base)
    ensures ComparePath(base, path) == Less
  {
    if base != [] {
      TextOrder(base[0], path[0]);
      assert base[0] == path[..|base|][0] == path[0];
      assert path[1..][..|base| - 1] == path[..|base|][1..];
      assert path == [path[0]] + path[1..] && base == [base[0]] + base[1..];
      ParentsSortFirst(path[1..], base[1..]);
    }
  }

  /** The order `WatchScope::load` sorts by: root, then alias. */
  function CompareRepository(a: Repository, b: Repository): Order {
    Then(ComparePath(a.root, b.root), CompareText(a.alias, b.alias))
  }

  predicate RepositoryNotAfter(a: Repository, b: Repository) {
    CompareRepository(a, b) != Greater
  }

  predicate EntryNotAfter(a: Entry, b: Entry) {
    ComparePath(a.path, b.path) != Greater
  }

  lemma OrdersAreTotal()
    ensures TotalOrder(RepositoryNotAfter) && TotalOrder(EntryNotAfter)
  {
    forall a, b
      ensures RepositoryNotAfter(a, b) || RepositoryNotAfter(b, a)
    {
      PathOrder(a.root, b.root);
      TextOrder(a.alias, b.alias);
    }
    forall a, b, c | RepositoryNotAfter(a, b) && RepositoryNotAfter(b, c)
      ensures RepositoryNotAfter(a, c)
    {
      PathComposes(a.root, b.root, c.root);
      TextComposes(a.alias, b.alias, c.alias);
      assert Composes(CompareRepository(a, b), CompareRepository(b, c), CompareRepository(a, c));
    }
    forall a, b
      ensures EntryNotAfter(a, b) || EntryNotAfter(b, a)
    {
      PathOrder(a.path, b.path);
    }
    forall a, b, c | EntryNotAfter(a, b) && EntryNotAfter(b, c)
      ensures EntryNotAfter(a, c)
    {
      PathComposes(a.path, b.path, c.path);
    }
  }

  // ---------------------------------------------------------------- the whole scope

  function Roots(repositories: seq<Repository>): (roots: seq<Path>)
    ensures |roots| == |repositories|
    ensures forall i :: 0 <= i < |roots| ==> roots[i] == repositories[i].root
  {
    seq(|repositories|, i requires 0 <= i < |repositories| => repositories[i].root)
  }

  /** `WatchScope::load` sorts the repositories it read. */
  function Loaded(targets: seq<Repository>): seq<Repository> {
    SortBy(RepositoryNotAfter, targets)
  }

  function Parent(config: Path): Option<Path> {
    if config == [] then None else Some(config[..|config| - 1])
  }

  function Start(config: Path): seq<Entry> {
    match Parent(config)
    case None => []
    case Some(parent) => [Entry(parent, NonRecursive)]
  }

  /** The entries after adding the roots one by one. */
  function AddedRoots(entries: seq<Entry>, roots: seq<Path>): seq<Entry>
    decreases |roots|
  {
    if roots == [] then entries
    else
      Added(AddedRoots(entries, roots[..|roots| - 1]), roots[|roots| - 1], Recursive)
  }

  lemma {:induction false} RootsAreCovered(entries: seq<Entry>, roots: seq<Path>, q: Path)
    ensures Covered(AddedRoots(entries, roots), q) <==>
              Covered(entries, q) || exists r <- roots :: StartsWith(q, r)
    decreases |roots|
  {
    if roots != [] {
      var shorter, last := roots[..|roots| - 1], roots[|roots| - 1];
      RootsAreCovered(entries, shorter, q);
      AddedCoverageIsTheUnion(AddedRoots(entries, shorter), last, Recursive, q);
      assert roots == shorter + [last];
      assert forall r :: r in roots <==> r in shorter || r == last;
      assert Covers(Entry(last, Recursive), q) <==> StartsWith(q, last);
    }
  }

  ghost predicate NoLaterParent(roots: seq<Path>) {
    forall i, j :: 0 <= i < j < |roots| ==> !StrictlyUnder(roots[i], roots[j])
  }

  lemma {:induction false} OrderedRootsAreExact(config: Path, roots: seq<Path>)
    requires NoLaterParent(roots)
    ensures Exact(AddedRoots(Start(config), roots), Parent(config), roots)
    decreases |roots|
  {
    if roots == [] {
      assert Parent(config).Some? ==> Start(config)[0] == Entry(Parent(config).value, NonRecursive);
    } else {
      var shorter, last := roots[..|roots| - 1], roots[|roots| - 1];
      OrderedRootsAreExact(config, shorter);
      AddRootIsExact(AddedRoots(Start(config), shorter), Parent(config), shorter, last);
      assert roots == shorter + [last];
    }
  }

  lemma LoadedRootsAreOrdered(targets: seq<Repository>)
    ensures multiset(Loaded(targets)) == multiset(targets)
    ensures NoLaterParent(Roots(Loaded(targets)))
  {
    OrdersAreTotal();
    SortByPermutes(RepositoryNotAfter, targets);
    var sorted := Loaded(targets);
    forall i, j | 0 <= i < j < |sorted|
      ensures !StrictlyUnder(sorted[i].root, sorted[j].root)
    {
      assert RepositoryNotAfter(sorted[i], sorted[j]);
      if StrictlyUnder(sorted[i].root, sorted[j].root) {
        ParentsSortFirst(sorted[i].root, sorted[j].root);
        PathOrder(sorted[i].root, sorted[j].root);
      }
    }
  }

  /** Sorting by path keeps the list exact. */
  lemma SortKeepsExact(entries: seq<Entry>, parent: Option<Path>, roots: seq<Path>)
    requires Exact(entries, parent, roots)
    ensures Exact(SortBy(EntryNotAfter, entries), parent, roots)
  {
    OrdersAreTotal();
    SortByPermutes(EntryNotAfter, entries);
    var sorted := SortBy(EntryNotAfter, entries);
    SameMembers(sorted, entries);
    DistinctIsMultiplicity(entries);
    forall i, j | 0 <= i < j < |sorted|
      ensures sorted[i].path != sorted[j].path
    {
      if sorted[i].path == sorted[j].path {
        assert sorted[i] in entries && sorted[j] in entries;
        assert sorted[i] == sorted[j];
        TwiceCountsTwo(sorted, i, j);
      }
    }
  }

  lemma {:induction false} DistinctIsMultiplicity(entries: seq<Entry>)
    requires Distinct(entries)
    ensures forall e :: multiset(entries)[e] <= 1
  {
    if entries != [] {
      DistinctIsMultiplicity(entries[1..]);
      assert entries == [entries[0]] + entries[1..];
      assert entries[0] !in entries[1..];
    }
  }

  lemma TwiceCountsTwo(entries: seq<Entry>, i: nat, j: nat)
    requires i < j < |entries| && entries[i] == entries[j]
    ensures multiset(entries)[entries[i]] >= 2
  {
    assert entries == entries[..j] + entries[j..];
    assert entries[..j][i] == entries[i] && entries[j..][0] == entries[j];
  }

  /**
   `watch_entries` on the loaded repositories: the configuration's directory and every root's tree
   are covered and nothing else; each tree is asked for once, in path order.
   */
  method WatchEntries(config: Path, targets: seq<Repository>) returns (entries: seq<Entry>)
    ensures forall q :: Covered(entries, q) <==>
                          || Covered(Start(config), q)
                          || exists t <- targets :: StartsWith(q, t.root)
    ensures Exact(entries, Parent(config), Roots(targets)) && InOrder(EntryNotAfter, entries)
    ensures !HasNestedTrees(entries)
  {
    var repositories := Loaded(targets);
    LoadedRootsAreOrdered(targets);
    ghost var roots := Roots(repositories);
    entries := Start(config);
    for n := 0 to |repositories|
      invariant entries == AddedRoots(Start(config), roots[..n])
    {
      assert roots[..n + 1][..n] == roots[..n];
      entries := AddWatchEntry(entries, repositories[n].root, Recursive);
    }
    assert roots[..|repositories|] == roots;
    OrderedRootsAreExact(config, roots);
    SameRoots(targets, repositories);
    ghost var unsorted := entries;
    ExactForSameRoots(unsorted, Parent(config), roots, Roots(targets));
    SortKeepsExact(unsorted, Parent(config), Roots(targets));
    OrdersAreTotal();
    SortByPermutes(EntryNotAfter, unsorted);
    entries := SortBy(EntryNotAfter, entries);
    ExactMeansUnnested(entries, Parent(config), Roots(targets));
    forall q
      ensures Covered(entries, q) <==>
                Covered(Start(config), q) || exists t <- targets :: StartsWith(q, t.root)
    {
      RootsAreCovered(Start(config), roots, q);
      SameMembers(entries, unsorted);
      RootsAbove(targets, q);
    }
  }

  lemma RootsAbove(targets: seq<Repository>, q: Path)
    ensures (exists r <- Roots(targets) :: StartsWith(q, r))
            <==> exists t <- targets :: StartsWith(q, t.root)
  {
    if t :| t in targets && StartsWith(q, t.root) {
      var i :| 0 <= i < |targets| && targets[i] == t;
      assert Roots(targets)[i] in Roots(targets);
    }
  }

  lemma SameRoots(a: seq<Repository>, b: seq<Repository>)
    requires multiset(a) == multiset(b)
    ensures forall r :: r in Roots(a) <==> r in Roots(b)
  {
    RootsComeFrom(a, b);
    RootsComeFrom(b, a);
  }

  lemma RootsComeFrom(a: seq<Repository>, b: seq<Repository>)
    requires multiset(a) == multiset(b)
    ensures forall r :: r in Roots(a) ==> r in Roots(b)
  {
    forall r | r in Roots(a)
      ensures r in Roots(b)
    {
      var i :| 0 <= i < |a| && Roots(a)[i] == r;
      assert a[i] in multiset(b);
      var j :| 0 <= j < |b| && b[j] == a[i];
      assert Roots(b)[j] == r;
    }
  }

  lemma ExactForSameRoots(
    entries: seq<Entry>, parent: Option<Path>, roots: seq<Path>, others: seq<Path>)
    requires Exact(entries, parent, roots) && forall r :: r in roots <==> r in others
    ensures Exact(entries, parent, others)
  {
    assert forall e :: Wanted(parent, roots, e) <==> Wanted(parent, others, e);
  }

  /** The watched list depends only on the configuration path and the set of roots. */
  lemma {:induction false} EntriesAreDetermined(a: seq<Entry>, b: seq<Entry>)
    requires Distinct(a) && Distinct(b) && InOrder(EntryNotAfter, a) && InOrder(EntryNotAfter, b)
    requires forall e :: e in a <==> e in b
    ensures a == b
  {
    assert b != [] ==> b[0] in b;
    if a != [] {
      assert a[0] in b && b[0] in a;
      var i :| 0 <= i < |b| && b[i] == a[0];
      var j :| 0 <= j < |a| && a[j] == b[0];
      PathOrder(a[0].path, b[0].path);
      assert i > 0 ==> EntryNotAfter(b[0], b[i]);
      assert j > 0 ==> EntryNotAfter(a[0], a[j]);
      assert a[0].path == b[0].path;
      assert i == 0 && j == 0;
      assert a == [a[0]] + a[1..] && b == [b[0]] + b[1..];
      forall e
        ensures e in a[1..] <==> e in b[1..]
      {
        assert a[0] !in a[1..] && b[0] !in b[1..];
        assert e in a <==> e == a[0] || e in a[1..];
        assert e in b <==> e == b[0] || e in b[1..];
      }
      EntriesAreDetermined(a[1..], b[1..]);
    }
  }

  /** Without the sort the upgrade branch leaves one tree inside another. */
  lemma UnsortedRootsNest(parent: Path, name: Text, file: Text)
    ensures HasNestedTrees(AddedRoots(Start(parent + [file]), [parent + [name], parent]))
  {
    var start := Start(parent + [file]);
    assert start == [Entry(parent, NonRecursive)];
    var child := parent + [name];
    var roots := [child, parent];
    assert roots[..1] == [child];
    var none: seq<Path> := roots[..0];
    assert [child][..0] == none && none == [];
    assert FirstAt(start, child) == 1;
    assert Retained(start[1..], child) == [];
    assert !StartsWith(parent, child);
    assert Retained(start, child) == start;
    var one := AddedRoots(start, [child]);
    assert [child][..|[child]| - 1] == none && AddedRoots(start, none) == start;
    assert !InsideTree(start, child);
    assert one == Added(start, child, Recursive);
    assert one == [Entry(parent, NonRecursive), Entry(child, Recursive)];
    assert FirstAt(one, parent) == 0;
    assert !InsideTree(one, parent);
    var two := AddedRoots(start, roots);
    assert two == [Entry(parent, Recursive), Entry(child, Recursive)];
    assert Trees(two[0], two[1]);
  }
}
