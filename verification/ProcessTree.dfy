/** Descendants of the worker process and the memory of its whole tree. */
module ProcessTree {
  import opened Basics


  type Pid = nat

  /** `thread` marks an entry that is a thread of another process. */
  datatype Process = Process(parent: Option<Pid>, memory: nat, thread: bool)

  type Processes = map<Pid, Process>

  function ParentOf(ps: Processes, pid: Pid): Option<Pid> {
    if pid in ps then ps[pid].parent else None
  }

  /** The root is reached by following exactly `links` parent links. */
  ghost predicate Reaches(ps: Processes, pid: Pid, root: Pid, links: nat)
    decreases links
  {
    links > 0 && ParentOf(ps, pid).Some? &&
    var parent := ParentOf(ps, pid).value;
    if links == 1 then parent == root else Reaches(ps, parent, root, links - 1)
  }

  /** One or more parent links lead to the root; parent maps may be cyclic. */
  ghost predicate Descends(ps: Processes, pid: Pid, root: Pid) {
    exists links: nat :: Reaches(ps, pid, root, links)
  }

  lemma DescendsStep(ps: Processes, pid: Pid, root: Pid)
    ensures Descends(ps, pid, root) <==>
            ParentOf(ps, pid).Some?
            && (ParentOf(ps, pid).value == root || Descends(ps, ParentOf(ps, pid).value, root))
  {
    if Descends(ps, pid, root) {
      var links: nat :| Reaches(ps, pid, root, links);
      if links > 1 {
        assert Reaches(ps, ParentOf(ps, pid).value, root, links - 1);
      }
    }
    if ParentOf(ps, pid).Some? {
      var parent := ParentOf(ps, pid).value;
      if parent == root {
        assert Reaches(ps, pid, root, 1);
      } else if Descends(ps, parent, root) {
        var links: nat :| Reaches(ps, parent, root, links);
        assert Reaches(ps, pid, root, links + 1);
      }
    }
  }

  /** A set that parent links do not leave, except by ending, and that never links to the root. */
  ghost predicate Trap(ps: Processes, root: Pid, pids: set<Pid>) {
    forall pid :: pid in pids && ParentOf(ps, pid).Some? ==>
      ParentOf(ps, pid).value != root && ParentOf(ps, pid).value in pids
  }

  lemma {:induction false} TrapNeverReaches(
    ps: Processes, root: Pid, pids: set<Pid>, pid: Pid, links: nat)
    requires Trap(ps, root, pids) && pid in pids
    ensures !Reaches(ps, pid, root, links)
    decreases links
  {
    if links > 1 && ParentOf(ps, pid).Some? {
      TrapNeverReaches(ps, root, pids, ParentOf(ps, pid).value, links - 1);
    }
  }

  lemma TrapNeverDescends(ps: Processes, root: Pid, pids: set<Pid>, pid: Pid)
    requires Trap(ps, root, pids) && pid in pids
    ensures !Descends(ps, pid, root)
  {
    forall links: nat
      ensures !Reaches(ps, pid, root, links)
    {
      TrapNeverReaches(ps, root, pids, pid, links);
    }
  }

  /** Processes already passed on the way up: distinct, present, and leading to `at`. */
  ghost predicate Trail(ps: Processes, root: Pid, passed: set<Pid>, at: Pid) {
    forall pid :: pid in passed ==>
      && pid in ps && ps[pid].parent.Some? && ps[pid].parent.value != root
      && (ps[pid].parent.value in passed || ps[pid].parent.value == at)
  }

  lemma FullTrailIsATrap(ps: Processes, root: Pid, passed: set<Pid>, at: Pid)
    requires Trail(ps, root, passed, at) && |passed| == |ps| && at !in passed
    ensures Trap(ps, root, passed + {at})
  {
    assert passed <= ps.Keys;
    assert |ps.Keys - passed| == |ps.Keys| - |passed|;
    assert passed == ps.Keys;
  }

  /**
   `is_descendant` terminates on every parent map and is exact although it follows at most as
   many links as there are processes: a longer chain must have come round a cycle.
   */
  method IsDescendant(ps: Processes, candidate: Pid, root: Pid) returns (r: bool)
    ensures r == Descends(ps, candidate, root)
  {
    var at := candidate;
    var remaining := |ps|;
    ghost var passed: set<Pid> := {};
    while remaining > 0
      invariant 0 <= remaining <= |ps|
      invariant Trail(ps, root, passed, at)
      invariant at in passed || |passed| + remaining == |ps|
      invariant Descends(ps, candidate, root) <==> Descends(ps, at, root)
    {
      DescendsStep(ps, at, root);
      var parent := ParentOf(ps, at);
      if parent.None? {
        return false;
      }
      if parent.value == root {
        return true;
      }
      if parent.value == at {
        TrapNeverDescends(ps, root, {at}, at);
        return false;
      }
      passed := passed + {at};
      at := parent.value;
      remaining := remaining - 1;
    }
    if at in passed {
      TrapNeverDescends(ps, root, passed, at);
    } else {
      FullTrailIsATrap(ps, root, passed, at);
      TrapNeverDescends(ps, root, passed + {at}, at);
    }
    return false;
  }

  // ---------------------------------------------------------------- memory of the tree

  function SaturatingAdd(a: nat, b: nat): nat {
    if a + b > U64_MAX then U64_MAX else a + b
  }

  ghost function MemorySum(ps: Processes, pids: set<Pid>): nat
    requires pids <= ps.Keys
  {
    if pids == {} then 0 else
      var pid :| pid in pids;
      ps[pid].memory + MemorySum(ps, pids - {pid})
  }

  lemma {:induction false} MemorySumSplits(ps: Processes, pids: set<Pid>, pid: Pid)
    requires pids <= ps.Keys && pid in pids
    ensures MemorySum(ps, pids) == ps[pid].memory + MemorySum(ps, pids - {pid})
    decreases pids
  {
    var first :| first in pids && MemorySum(ps, pids) == ps[first].memory + MemorySum(ps, pids - {first});
    if first != pid {
      MemorySumSplits(ps, pids - {first}, pid);
      MemorySumSplits(ps, pids - {pid}, first);
      assert pids - {first} - {pid} == pids - {pid} - {first};
    }
  }

  /** Processes, not threads, that are the root or descend from it. */
  ghost function Tree(ps: Processes, root: Pid): set<Pid> {
    set pid | pid in ps && !ps[pid].thread && (pid == root || Descends(ps, pid, root))
  }

  /** The root and its descendants are in the tree once each; threads and other processes are not. */
  lemma TreeMembers(ps: Processes, root: Pid, pid: Pid)
    ensures root in ps && !ps[root].thread ==> root in Tree(ps, root)
    ensures pid in ps && !ps[pid].thread && ParentOf(ps, pid) == Some(root) ==> pid in Tree(ps, root)
    ensures (&& pid in ps && !ps[pid].thread && ParentOf(ps, pid).Some?
             && ParentOf(ps, pid).value in Tree(ps, root)) ==> pid in Tree(ps, root)
    ensures pid in Tree(ps, root) ==>
              pid in ps && !ps[pid].thread && (pid == root || Descends(ps, pid, root))
  {
    DescendsStep(ps, pid, root);
  }

  /** The saturating fold gives the exact sum capped at the 64-bit maximum, in any visiting order. */
  method TreeMemory(ps: Processes, root: Pid) returns (total: nat)
    ensures total == if MemorySum(ps, Tree(ps, root)) > U64_MAX then U64_MAX
                     else MemorySum(ps, Tree(ps, root))
  {
    total := 0;
    var left := ps.Keys;
    ghost var counted: set<Pid> := {};
    while left != {}
      invariant left <= ps.Keys && counted <= ps.Keys
      invariant forall pid :: pid in counted <==> pid in Tree(ps, root) && pid !in left
      invariant total == if MemorySum(ps, counted) > U64_MAX then U64_MAX else MemorySum(ps, counted)
    {
      var pid :| pid in left;
      left := left - {pid};
      if !ps[pid].thread {
        var inTree := pid == root;
        if !inTree {
          inTree := IsDescendant(ps, pid, root);
        }
        if inTree {
          total := SaturatingAdd(total, ps[pid].memory);
          MemorySumSplits(ps, counted + {pid}, pid);
          assert counted + {pid} - {pid} == counted;
          counted := counted + {pid};
        }
      }
    }
    assert counted == Tree(ps, root);
  }
}
