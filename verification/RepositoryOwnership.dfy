/**
 Repository ownership over confirmed containment: a worklist over a graph that may be cyclic,
 where a directly attributed node blocks inheritance. It computes a reachability relation.
 */
module RepositoryOwnership {
  import opened Basics

  type NodeId = string
  type RepoId = string

  datatype NodeKind =
    | Repository | Service | Package | Artifact | SymbolRef | TestCase | HttpOperation
    | GraphqlOperation | RpcMethod | EventChannel | EventSchema | Database | DatabaseTable
    | DatabaseColumn | ConfigKey | Deployment | Document | Adr | Owner | ChangeSet | PullRequest
    | Community

  datatype EdgeKind = Contains | OtherRelation

  datatype EpistemicStatus = Confirmed | Inferred | Ambiguous | Stale | Incomplete

  datatype Node = Node(id: NodeId, kind: NodeKind, repo: Option<RepoId>)

  datatype Edge = Edge(source: NodeId, target: NodeId, kind: EdgeKind, status: EpistemicStatus)

  datatype Ownership = Ownership(repositories: set<RepoId>, direct: bool)

  /** Collecting into a map by id keeps the last node of each id. */
  function NodeMap(nodes: seq<Node>): (m: map<NodeId, Node>)
    ensures forall id :: id in m ==> m[id].id == id && m[id] in nodes
    ensures forall n <- nodes :: n.id in m
  {
    if nodes == [] then map[] else
      var last := nodes[|nodes| - 1];
      assert nodes == nodes[..|nodes| - 1] + [last];
      NodeMap(nodes[..|nodes| - 1])[last.id := last]
  }

  /** `ownership_containment`. */
  predicate Containment(nodes: map<NodeId, Node>, edge: Edge) {
    && edge.source in nodes && edge.target in nodes
    && match nodes[edge.source].kind
       case Repository => nodes[edge.target].kind == Artifact
       case Artifact => nodes[edge.target].kind != Document
       case Database => true
       case DatabaseTable => true
       case EventChannel => true
       case _ => false
  }

  predicate Eligible(nodes: map<NodeId, Node>, edge: Edge) {
    edge.kind == Contains && edge.status == Confirmed && Containment(nodes, edge)
  }

  // ---------------------------------------------------------------- the reference: reachability

  ghost predicate Holds(nodes: map<NodeId, Node>, edges: seq<Edge>, parent: NodeId, child: NodeId) {
    exists e :: e in edges && Eligible(nodes, e) && e.source == parent && e.target == child
  }

  predicate Direct(nodes: map<NodeId, Node>, id: NodeId)
    requires id in nodes
  {
    nodes[id].repo.Some?
  }

  /** A containment path from a direct node through nodes that are not direct. */
  ghost predicate OwningPath(nodes: map<NodeId, Node>, edges: seq<Edge>, path: seq<NodeId>) {
    && path != [] && path[0] in nodes && Direct(nodes, path[0])
    && forall i :: 0 < i < |path| ==>
         && path[i] in nodes && !Direct(nodes, path[i]) && Holds(nodes, edges, path[i - 1], path[i])
  }

  ghost predicate Owns(
    nodes: map<NodeId, Node>, edges: seq<Edge>, id: NodeId, repo: RepoId)
  {
    exists path :: OwningPath(nodes, edges, path) && path[|path| - 1] == id
                   && nodes[path[0]].repo == Some(repo)
  }

  /** An assignment that respects direct attribution and is closed under inheritance. */
  ghost predicate Closed(
    nodes: map<NodeId, Node>, edges: seq<Edge>, own: map<NodeId, set<RepoId>>)
  {
    && own.Keys == nodes.Keys
    && (forall id :: id in nodes && Direct(nodes, id) ==> nodes[id].repo.value in own[id])
    && (forall p, c :: p in nodes && c in nodes && Holds(nodes, edges, p, c) && !Direct(nodes, c) ==>
          own[p] <= own[c])
  }

  lemma {:induction false} PathReaches(
    nodes: map<NodeId, Node>, edges: seq<Edge>, own: map<NodeId, set<RepoId>>, path: seq<NodeId>)
    requires Closed(nodes, edges, own) && OwningPath(nodes, edges, path)
    ensures path[|path| - 1] in nodes
    ensures nodes[path[0]].repo.value in own[path[|path| - 1]]
  {
    if |path| > 1 {
      var init := path[..|path| - 1];
      PathReaches(nodes, edges, own, init);
      assert Holds(nodes, edges, path[|path| - 2], path[|path| - 1]);
    }
  }

  /** Reachability is below every closed assignment. */
  lemma OwnsIsLeast(
    nodes: map<NodeId, Node>, edges: seq<Edge>, own: map<NodeId, set<RepoId>>, id: NodeId, repo: RepoId)
    requires Closed(nodes, edges, own) && Owns(nodes, edges, id, repo)
    ensures id in nodes && repo in own[id]
  {
    var path :| OwningPath(nodes, edges, path) && path[|path| - 1] == id
                && nodes[path[0]].repo == Some(repo);
    PathReaches(nodes, edges, own, path);
  }

  lemma OwnsExtends(
    nodes: map<NodeId, Node>, edges: seq<Edge>, parent: NodeId, child: NodeId, repo: RepoId)
    requires Owns(nodes, edges, parent, repo)
    requires child in nodes && !Direct(nodes, child) && Holds(nodes, edges, parent, child)
    ensures Owns(nodes, edges, child, repo)
  {
    var path :| OwningPath(nodes, edges, path) && path[|path| - 1] == parent
                && nodes[path[0]].repo == Some(repo);
    assert OwningPath(nodes, edges, path + [child]);
    assert (path + [child])[|path + [child]| - 1] == child;
  }

  lemma OwnsItself(nodes: map<NodeId, Node>, edges: seq<Edge>, id: NodeId)
    requires id in nodes && Direct(nodes, id)
    ensures Owns(nodes, edges, id, nodes[id].repo.value)
    ensures forall repo :: Owns(nodes, edges, id, repo) ==> repo == nodes[id].repo.value
  {
    assert OwningPath(nodes, edges, [id]) && [id][|[id]| - 1] == id;
    forall repo | Owns(nodes, edges, id, repo)
      ensures repo == nodes[id].repo.value
    {
      var path :| OwningPath(nodes, edges, path) && path[|path| - 1] == id
                  && nodes[path[0]].repo == Some(repo);
      assert |path| == 1;
    }
  }

  /** Ownership does not depend on the order or repetition of edges. */
  lemma EdgeOrderIsIrrelevant(
    nodes: map<NodeId, Node>, a: seq<Edge>, b: seq<Edge>, id: NodeId, repo: RepoId)
    requires forall e :: e in a <==> e in b
    ensures Owns(nodes, a, id, repo) <==> Owns(nodes, b, id, repo)
  {
    SameEdgesSameOwners(nodes, a, b, id, repo);
    SameEdgesSameOwners(nodes, b, a, id, repo);
  }

  lemma SameEdgesSameOwners(
    nodes: map<NodeId, Node>, a: seq<Edge>, b: seq<Edge>, id: NodeId, repo: RepoId)
    requires forall e :: e in a ==> e in b
    ensures Owns(nodes, a, id, repo) ==> Owns(nodes, b, id, repo)
  {
    if Owns(nodes, a, id, repo) {
      var path :| OwningPath(nodes, a, path) && path[|path| - 1] == id
                  && nodes[path[0]].repo == Some(repo);
      forall i | 0 < i < |path|
        ensures Holds(nodes, b, path[i - 1], path[i])
      {
        assert Holds(nodes, a, path[i - 1], path[i]);
        var e :| e in a && Eligible(nodes, e) && e.source == path[i - 1] && e.target == path[i];
      }
      assert OwningPath(nodes, b, path);
    }
  }

  // ---------------------------------------------------------------- which edges carry ownership

  /** The kinds of parent and child over which ownership is inherited. */
  predicate Inherits(parent: NodeKind, child: NodeKind) {
    || (parent == Repository && child == Artifact)
    || (parent == Artifact && child != Document)
    || parent in {Database, DatabaseTable, EventChannel}
  }

  /** An edge that is no containment, is not confirmed, has an unknown end, or goes between other
      kinds never gives a node a repository. */
  lemma OtherEdgesGiveNothing(
    nodes: map<NodeId, Node>, edges: seq<Edge>, e: Edge, id: NodeId, repo: RepoId)
    requires e.kind != Contains || e.status != Confirmed || e.source !in nodes || e.target !in nodes
             || !Inherits(nodes[e.source].kind, nodes[e.target].kind)
    ensures Owns(nodes, edges + [e], id, repo) <==> Owns(nodes, edges, id, repo)
  {
    SameEdgesSameOwners(nodes, edges, edges + [e], id, repo);
    if Owns(nodes, edges + [e], id, repo) {
      var path :| OwningPath(nodes, edges + [e], path) && path[|path| - 1] == id
                  && nodes[path[0]].repo == Some(repo);
      forall i | 0 < i < |path|
        ensures Holds(nodes, edges, path[i - 1], path[i])
      {
        assert Holds(nodes, edges + [e], path[i - 1], path[i]);
        var x :| x in edges + [e] && Eligible(nodes, x) && x.source == path[i - 1] && x.target == path[i];
      }
      assert OwningPath(nodes, edges, path);
    }
  }

  /** A confirmed containment between inheriting kinds gives the child all its parent owns, unless
      the child has a repository of its own. */
  lemma ContainmentGives(nodes: map<NodeId, Node>, edges: seq<Edge>, e: Edge, repo: RepoId)
    requires e in edges && e.kind == Contains && e.status == Confirmed
    requires e.source in nodes && e.target in nodes
    requires Inherits(nodes[e.source].kind, nodes[e.target].kind)
    requires nodes[e.target].repo.None? && Owns(nodes, edges, e.source, repo)
    ensures Owns(nodes, edges, e.target, repo)
  {
    assert Holds(nodes, edges, e.source, e.target);
    OwnsExtends(nodes, edges, e.source, e.target, repo);
  }

  // ---------------------------------------------------------------- the worklist

  type Owners = map<NodeId, set<RepoId>>

  ghost function Repositories(nodes: map<NodeId, Node>): set<RepoId> {
    set id | id in nodes && nodes[id].repo.Some? :: nodes[id].repo.value
  }

  /** Pairs not yet attributed; every push comes with fewer of them. */
  ghost function Missing(nodes: map<NodeId, Node>, own: Owners): set<(NodeId, RepoId)>
    requires own.Keys == nodes.Keys
  {
    set id, r | id in nodes && r in Repositories(nodes) && r !in own[id] :: (id, r)
  }

  /** What every state of the loop knows, apart from pending work. */
  ghost predicate Sound(nodes: map<NodeId, Node>, edges: seq<Edge>, own: Owners) {
    && own.Keys == nodes.Keys
    && (forall id :: id in nodes && Direct(nodes, id) ==> own[id] == {nodes[id].repo.value})
    && (forall id, r :: id in nodes && r in own[id] ==> Owns(nodes, edges, id, r))
  }

  /** Containment edges whose inheritance has not reached the child come from queued parents or
      from the children of `current` still to be visited. */
  ghost predicate WorkCovers(
    nodes: map<NodeId, Node>, edges: seq<Edge>, own: Owners, queue: seq<NodeId>,
    current: NodeId, todo: set<NodeId>)
    requires own.Keys == nodes.Keys
  {
    forall p, c :: p in nodes && c in nodes && Holds(nodes, edges, p, c) && !Direct(nodes, c) ==>
      own[p] <= own[c] || p in queue || (p == current && c in todo)
  }

  lemma OwnersAreRepositories(nodes: map<NodeId, Node>, edges: seq<Edge>, own: Owners, id: NodeId)
    requires Sound(nodes, edges, own) && id in nodes
    ensures own[id] <= Repositories(nodes)
  {
    forall r | r in own[id]
      ensures r in Repositories(nodes)
    {
      assert Owns(nodes, edges, id, r);
      var path :| OwningPath(nodes, edges, path) && path[|path| - 1] == id
                  && nodes[path[0]].repo == Some(r);
    }
  }

  lemma InheritSound(
    nodes: map<NodeId, Node>, edges: seq<Edge>, own: Owners, parent: NodeId, child: NodeId)
    requires Sound(nodes, edges, own)
    requires parent in nodes && child in nodes && Holds(nodes, edges, parent, child)
    requires !Direct(nodes, child)
    ensures Sound(nodes, edges, own[child := own[child] + own[parent]])
  {
    hide Owns, Holds;
    forall r | r in own[parent]
      ensures Owns(nodes, edges, child, r)
    {
      OwnsExtends(nodes, edges, parent, child, r);
    }
  }

  lemma InheritCovers(
    nodes: map<NodeId, Node>, edges: seq<Edge>, own: Owners, queue: seq<NodeId>,
    parent: NodeId, child: NodeId, todo: set<NodeId>)
    requires own.Keys == nodes.Keys && WorkCovers(nodes, edges, own, queue, parent, todo)
    requires parent in nodes && child in nodes
    ensures var grown := own[child := own[child] + own[parent]];
            && WorkCovers(nodes, edges, grown, queue + [child], parent, todo - {child})
            && (grown[child] == own[child] ==>
                  grown == own && WorkCovers(nodes, edges, own, queue, parent, todo - {child}))
  {
    hide Holds;
    var grown := own[child := own[child] + own[parent]];
    if grown[child] == own[child] {
      assert grown == own;
    }
  }

  lemma SkipDirect(
    nodes: map<NodeId, Node>, edges: seq<Edge>, own: Owners, queue: seq<NodeId>,
    parent: NodeId, child: NodeId, todo: set<NodeId>)
    requires own.Keys == nodes.Keys && WorkCovers(nodes, edges, own, queue, parent, todo)
    requires child in nodes && Direct(nodes, child)
    ensures WorkCovers(nodes, edges, own, queue, parent, todo - {child})
  {
    hide Holds;
  }

  lemma InheritShrinks(
    nodes: map<NodeId, Node>, edges: seq<Edge>, own: Owners, child: NodeId, more: set<RepoId>)
    requires own.Keys == nodes.Keys && child in nodes && !(more <= own[child])
    requires Sound(nodes, edges, own[child := own[child] + more])
    ensures Missing(nodes, own[child := own[child] + more]) < Missing(nodes, own)
  {
    hide Sound;
    var grown := own[child := own[child] + more];
    var r :| r in more && r !in own[child];
    OwnersAreRepositories(nodes, edges, grown, child);
    assert r in grown[child];
    assert (child, r) in Missing(nodes, own) && (child, r) !in Missing(nodes, grown);
    assert Missing(nodes, grown) <= Missing(nodes, own);
  }

  /** The inner loop over the children of one queued parent. */
  method VisitChildren(
    nodes: map<NodeId, Node>, ghost edges: seq<Edge>, own0: Owners, queue0: seq<NodeId>,
    parent: NodeId, children: set<NodeId>)
    returns (own: Owners, queue: seq<NodeId>)
    requires Sound(nodes, edges, own0) && parent in nodes
    requires forall c :: c in children <==> Holds(nodes, edges, parent, c)
    requires forall c :: c in children ==> c in nodes
    requires WorkCovers(nodes, edges, own0, queue0, parent, children)
    ensures Sound(nodes, edges, own) && WorkCovers(nodes, edges, own, queue, parent, {})
    ensures (forall q <- queue0 :: q in nodes) ==> forall q <- queue :: q in nodes
    ensures (own == own0 && queue == queue0) || Missing(nodes, own) < Missing(nodes, own0)
  {
    hide Holds, Owns, WorkCovers, Missing;
    own, queue := own0, queue0;
    var todo := children;
    while todo != {}
      invariant todo <= children
      invariant Sound(nodes, edges, own) && own[parent] == own0[parent]
      invariant WorkCovers(nodes, edges, own, queue, parent, todo)
      invariant (forall q <- queue0 :: q in nodes) ==> forall q <- queue :: q in nodes
      invariant (own == own0 && queue == queue0) || Missing(nodes, own) < Missing(nodes, own0)
    {
      var child :| child in todo;
      if Direct(nodes, child) {
        SkipDirect(nodes, edges, own, queue, parent, child, todo);
      } else {
        InheritSound(nodes, edges, own, parent, child);
        InheritCovers(nodes, edges, own, queue, parent, child, todo);
        var grown := own[child] + own0[parent];
        if grown != own[child] {
          InheritShrinks(nodes, edges, own, child, own0[parent]);
          own, queue := own[child := grown], queue + [child];
        }
      }
      todo := todo - {child};
    }
  }

  /** Popping a parent moves its work to the children about to be visited. */
  lemma PopCovers(
    nodes: map<NodeId, Node>, edges: seq<Edge>, own: Owners, queue: seq<NodeId>, children: set<NodeId>)
    requires own.Keys == nodes.Keys && queue != []
    requires forall c :: c in children <==> Holds(nodes, edges, queue[0], c)
    requires WorkCovers(nodes, edges, own, queue, queue[0], {})
    ensures WorkCovers(nodes, edges, own, queue[1..], queue[0], children)
    ensures forall c :: c in children ==> c in nodes
  {
    assert queue == [queue[0]] + queue[1..];
  }

  lemma EmptyWorkIsClosed(nodes: map<NodeId, Node>, edges: seq<Edge>, own: Owners, parent: NodeId)
    requires Sound(nodes, edges, own) && WorkCovers(nodes, edges, own, [], parent, {})
    ensures forall id, r :: id in nodes ==> (r in own[id] <==> Owns(nodes, edges, id, r))
  {
    assert Closed(nodes, edges, own);
    hide Owns, Closed;
    forall id, r | id in nodes && Owns(nodes, edges, id, r)
      ensures r in own[id]
    {
      OwnsIsLeast(nodes, edges, own, id, r);
    }
  }

  /** Collects eligible edges by parent, polling for a stop every 256 edges. */
  method CollectChildren(nodes: map<NodeId, Node>, edges: seq<Edge>, shouldStop: nat -> bool)
    returns (children: Option<map<NodeId, set<NodeId>>>, polls: nat)
    ensures children.None? ==> polls > 0 && shouldStop(polls - 1)
    ensures children.Some? ==>
      forall p, c :: (p in children.value && c in children.value[p]) <==> Holds(nodes, edges, p, c)
  {
    var collected: map<NodeId, set<NodeId>> := map[];
    polls := 0;
    var i := 0;
    while i < |edges|
      invariant 0 <= i <= |edges|
      invariant forall p, c :: (p in collected && c in collected[p]) <==> Holds(nodes, edges[..i], p, c)
    {
      if i % 256 == 0 {
        polls := polls + 1;
        if shouldStop(polls - 1) {
          return None, polls;
        }
      }
      var e := edges[i];
      HoldsStep(nodes, edges[..i], e);
      assert edges[..i + 1] == edges[..i] + [e];
      if Eligible(nodes, e) {
        var before := if e.source in collected then collected[e.source] else {};
        collected := collected[e.source := before + {e.target}];
      }
      i := i + 1;
    }
    assert edges[..i] == edges;
    return Some(collected), polls;
  }

  lemma HoldsStep(nodes: map<NodeId, Node>, edges: seq<Edge>, e: Edge)
    ensures forall p, c :: Holds(nodes, edges + [e], p, c) <==>
              Holds(nodes, edges, p, c) || (Eligible(nodes, e) && e.source == p && e.target == c)
  {
    forall p, c
      ensures Holds(nodes, edges + [e], p, c) <==>
              Holds(nodes, edges, p, c) || (Eligible(nodes, e) && e.source == p && e.target == c)
    {
      if Holds(nodes, edges, p, c) {
        var x :| x in edges && Eligible(nodes, x) && x.source == p && x.target == c;
        assert x in edges + [e];
      }
      if Eligible(nodes, e) && e.source == p && e.target == c {
        assert e in edges + [e];
      }
    }
  }

  function Attributed(nodes: map<NodeId, Node>): (own: Owners)
    ensures own.Keys == nodes.Keys
  {
    map id | id in nodes :: if nodes[id].repo.Some? then {nodes[id].repo.value} else {}
  }

  /** The ownership every node starts with, and the queue of nodes that have any. */
  method Initial(nodes: map<NodeId, Node>, ghost edges: seq<Edge>)
    returns (own: Owners, queue: seq<NodeId>)
    ensures Sound(nodes, edges, own)
    ensures forall q <- queue :: q in nodes
    ensures forall parent :: WorkCovers(nodes, edges, own, queue, parent, {})
  {
    own := Attributed(nodes);
    InitialIsSound(nodes, edges);
    hide Sound, Attributed;
    queue := [];
    var left := nodes.Keys;
    while left != {}
      invariant left <= nodes.Keys
      invariant forall q <- queue :: q in nodes
      invariant forall id :: id in nodes && id !in left && own[id] != {} ==> id in queue
    {
      var id :| id in left;
      if own[id] != {} {
        queue := queue + [id];
      }
      left := left - {id};
    }
  }

  lemma InitialIsSound(nodes: map<NodeId, Node>, edges: seq<Edge>)
    ensures Sound(nodes, edges, Attributed(nodes))
  {
    hide Owns;
    forall id | id in nodes && Direct(nodes, id)
      ensures Owns(nodes, edges, id, nodes[id].repo.value)
    {
      OwnsItself(nodes, edges, id);
    }
  }

  /**
   `resolve_repository_ownership`. It terminates on every graph; unless stopped, a node ends with
   exactly the repositories of the direct nodes that reach it, and a direct node with its own.
   */
  method Resolve(nodes: seq<Node>, edges: seq<Edge>, shouldStop: nat -> bool)
    returns (r: Option<map<NodeId, Ownership>>)
    ensures (forall k :: !shouldStop(k)) ==> r.Some?
    ensures r.Some? ==>
      var known := NodeMap(nodes);
      && r.value.Keys == known.Keys
      && (forall id :: id in known ==> r.value[id].direct == Direct(known, id))
      && (forall id, repo :: id in known ==>
            (repo in r.value[id].repositories <==> Owns(known, edges, id, repo)))
      && (forall id :: id in known && Direct(known, id) ==>
            r.value[id].repositories == {known[id].repo.value})
  {
    hide Holds, Owns, Missing;
    var known := NodeMap(nodes);
    var children, polls := CollectChildren(known, edges, shouldStop);
    if children.None? {
      return None;
    }
    var own, queue := Initial(known, edges);
    var work := 0;
    var parent: NodeId := "";
    while queue != []
      invariant Sound(known, edges, own)
      invariant forall q <- queue :: q in known
      invariant WorkCovers(known, edges, own, queue, parent, {})
      decreases Missing(known, own), |queue|
    {
      parent := queue[0];
      var rest := queue[1..];
      assert queue == [parent] + rest;
      work := work + 1;
      if work % 256 == 0 {
        polls := polls + 1;
        if shouldStop(polls - 1) {
          return None;
        }
      }
      var visit := if parent in children.value then children.value[parent] else {};
      PopCovers(known, edges, own, queue, visit);
      own, queue := VisitChildren(known, edges, own, rest, parent, visit);
    }
    EmptyWorkIsClosed(known, edges, own, parent);
    return Some(map id | id in known :: Ownership(own[id], known[id].repo.Some?));
  }
}
