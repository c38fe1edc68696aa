/** The memoised depth-first search for library dependencies, with its in-progress flags,
    its cache, and the cycle report that grows while the exception unwinds. */
module Libdeps {
  import opened LibdepsGraph

  /** A dependency set, or the nodes that DependencyCycleError carries. */
  datatype Result = Deps(deps: set<Node>) | DependencyCycle(nodes: seq<Node>)

  /** The true entries of a list of children. */
  ghost function Children(list: seq<Node?>): set<Node> {
    if list == [] then {}
    else
      var last := list[|list| - 1];
      Children(list[..|list| - 1]) + if last == null then {} else {last}
  }

  /** `g` holds the direct edges that the emitters have recorded. */
  ghost predicate Recorded(g: Graph)
    reads g.Keys`libdepsDirect
  {
    forall n | n in g :: g[n] == Children(n.libdepsDirect)
  }

  /** A cached node has its exact dependencies, lies on no cycle, and has cached children. */
  ghost predicate CachedRight(g: Graph, n: Node)
    requires n in g
    reads n`cached, g[n]`cached
  {
    n.cached.Present? ==>
      && n.cached.deps == Dependencies(g, n)
      && n !in n.cached.deps
      && forall c | c in g[n] :: c.cached.Present?
  }

  ghost function OnPath(path: seq<Node>): set<Node> {
    set n | n in path
  }

  /** The state of all nodes while the calls for `path` are active: exactly these nodes are
      being explored, none of them is cached, and what is cached is right. */
  ghost predicate Consistent(g: Graph, path: seq<Node>)
    reads g.Keys
  {
    && Closed(g) && Recorded(g)
    && IsWalk(g, path) && NoRepeats(path)
    && (forall n | n in g :: n.exploring <==> n in OnPath(path))
    && (forall n | n in path :: n.cached == Absent)
    && (forall n | n in g :: CachedRight(g, n))
  }

  /** What a cycle report looks like when it leaves the call for `n` under `path`: a simple
      cycle, or a walk from `n` that is still on its way to the node on `path` that closes
      it. */
  ghost predicate Report(g: Graph, path: seq<Node>, n: Node, nodes: seq<Node>) {
    && |nodes| > 0 && IsWalk(g, nodes) && ReachesOrIs(g, n, nodes[0])
    && (SimpleCycle(g, nodes) || Unclosed(path, n, nodes))
  }

  ghost predicate Unclosed(path: seq<Node>, n: Node, nodes: seq<Node>) {
    && |nodes| > 0
    && nodes[0] == n
    && nodes[|nodes| - 1] in path
    && (|nodes| > 1 ==> nodes[0] != nodes[|nodes| - 1])
    && NoRepeats(nodes[..|nodes| - 1])
    && (forall m | m in nodes[..|nodes| - 1] :: m !in path)
  }

  // ----- facts about the cache

  /** Everything that a cached node reaches is cached and lies on no cycle. */
  lemma CachedReach(g: Graph, path: seq<Node>, n: Node, m: Node)
    requires Consistent(g, path) && n in g && n.cached.Present? && ReachesOrIs(g, n, m)
    ensures m in g && m.cached.Present? && !Reaches(g, m, m)
  {
    var s := set x | x in g && x.cached.Present?;
    if n != m {
      var k: nat :| k > 0 && m in Steps(g, n, k);
      ClosedSetHolds(g, s, n, k);
    }
    assert m in s;
    assert CachedRight(g, m);
  }

  /** Some nodes together with their dependencies. */
  ghost function Gather(g: Graph, cs: set<Node>): set<Node> {
    cs + set c, m | c in cs && m in Dependencies(g, c) :: m
  }

  lemma GatherOne(g: Graph, cs: set<Node>, c: Node)
    ensures Gather(g, cs + {c}) == Gather(g, cs) + {c} + Dependencies(g, c)
  {
  }

  /** What is gathered from the children are the node's dependencies. */
  lemma GatherChildren(g: Graph, n: Node)
    requires Closed(g) && n in g
    ensures Gather(g, g[n]) == Dependencies(g, n)
  {
    forall m | m in g
      ensures m in Gather(g, g[n]) <==> m in Dependencies(g, n)
    {
      ReachesByChild(g, n, m);
      if c :| c in g[n] && ReachesOrIs(g, c, m) {
        assert m == c || m in Dependencies(g, c);
      }
      if m in Gather(g, g[n]) && m !in g[n] {
        var c :| c in g[n] && m in Dependencies(g, c);
        assert ReachesOrIs(g, c, m);
      } else if m in g[n] {
        assert ReachesOrIs(g, m, m);
      }
    }
  }

  /** Putting the present node in front of a report. */
  lemma Prepend(g: Graph, path: seq<Node>, n: Node, c: Node, nodes: seq<Node>)
    requires n in g && c in g[n] && n !in path && IsWalk(g, nodes)
    requires Unclosed(path + [n], c, nodes)
    ensures Report(g, path, n, [n] + nodes)
  {
    var w := [n] + nodes;
    assert w[..|w| - 1] == [n] + nodes[..|nodes| - 1];
    assert forall i | 0 <= i < |w| - 1 :: w[i + 1] in g[w[i]];
    assert nodes[|nodes| - 1] in path + [n];
    assert n in path + [n];
    assert forall m | m in path :: m in path + [n];
  }

  // ----- the search

  ghost predicate Called(g: Graph, path: seq<Node>, n: Node) {
    n in g && (path != [] ==> path[|path| - 1] in g && n in g[path[|path| - 1]])
  }

  method GetLibdeps(ghost g: Graph, ghost path: seq<Node>, n: Node) returns (r: Result)
    requires Consistent(g, path) && Called(g, path, n)
    modifies g.Keys`exploring, g.Keys`cached
    ensures Consistent(g, path)
    ensures forall m | m in g && old(m.cached).Present? :: m.cached == old(m.cached)
    ensures r.Deps? ==> n.cached == Present(r.deps)
    ensures r.DependencyCycle? ==> Report(g, path, n, r.nodes)
    decreases |g.Keys - OnPath(path)|, 3
  {
    if n.cached == Absent {
      r := ComputeLibdeps(g, path, n);
      if r.DependencyCycle? {
        return;
      }
      Store(g, path, n, r.deps);
    }
    r := Deps(n.cached.deps);
  }

  method Store(ghost g: Graph, ghost path: seq<Node>, n: Node, deps: set<Node>)
    requires Consistent(g, path) && n in g && n !in OnPath(path) && Searched(g, n, deps)
    modifies n`cached
    ensures Consistent(g, path) && n.cached == Present(deps)
  {
    n.cached := Present(deps);
    assert forall m | m in path :: m in OnPath(path);
  }

  /** The result of a search below `n`, ready to be cached. */
  ghost predicate Searched(g: Graph, n: Node, deps: set<Node>)
    requires n in g
    reads g[n]`cached
  {
    && deps == Dependencies(g, n)
    && n !in deps
    && forall c | c in g[n] :: c.cached.Present?
  }

  method ComputeLibdeps(ghost g: Graph, ghost path: seq<Node>, n: Node) returns (r: Result)
    requires Consistent(g, path) && Called(g, path, n) && n.cached == Absent
    modifies g.Keys`exploring, g.Keys`cached
    ensures Consistent(g, path)
    ensures forall m | m in g && old(m.cached).Present? :: m.cached == old(m.cached)
    ensures r.Deps? ==> n !in OnPath(path) && Searched(g, n, r.deps)
    ensures r.DependencyCycle? ==> Report(g, path, n, r.nodes)
    decreases |g.Keys - OnPath(path)|, 2
  {
    if n.exploring {
      return DependencyCycle([n]);
    }
    Enter(g, path, n);
    r := Explore(g, path, n);
    Leave(g, path, n);
  }

  method Enter(ghost g: Graph, ghost path: seq<Node>, n: Node)
    requires Consistent(g, path) && Called(g, path, n) && n.cached == Absent && !n.exploring
    modifies n`exploring
    ensures Consistent(g, path + [n])
  {
    n.exploring := true;
    assert OnPath(path + [n]) == OnPath(path) + {n};
  }

  method Leave(ghost g: Graph, ghost path: seq<Node>, n: Node)
    requires Consistent(g, path + [n]) && n in g
    modifies n`exploring
    ensures Consistent(g, path)
  {
    ghost var w := path + [n];
    assert forall i | 0 <= i < |path| :: w[i] == path[i];
    assert w[|path|] == n;
    assert OnPath(w) == OnPath(path) + {n} && n !in OnPath(path);
    n.exploring := false;
  }

  /** The loop over the children. */
  method Explore(ghost g: Graph, ghost path: seq<Node>, n: Node) returns (r: Result)
    requires Consistent(g, path + [n]) && n in g && n !in OnPath(path)
    modifies g.Keys`exploring, g.Keys`cached
    ensures Consistent(g, path + [n])
    ensures forall m | m in g && old(m.cached).Present? :: m.cached == old(m.cached)
    ensures r.Deps? ==> Searched(g, n, r.deps)
    ensures r.DependencyCycle? ==> Report(g, path, n, r.nodes)
    decreases |g.Keys - OnPath(path)|, 1
  {
    hide Report, Gather, Dependencies, Children, Closed, IsWalk, NoRepeats;
    var children := n.libdepsDirect;
    var deps: set<Node> := {};
    GatherNone(g);
    for i := 0 to |children|
      invariant Consistent(g, path + [n])
      invariant n.libdepsDirect == children
      invariant forall m | m in g && old(m.cached).Present? :: m.cached == old(m.cached)
      invariant forall c | c in Children(children[..i]) :: c in g && c.cached.Present?
      invariant deps == Gather(g, Children(children[..i]))
    {
      var child := children[i];
      ChildrenPrefix(children, i);
      if child == null {
        continue;
      }
      deps := deps + {child};
      r := ExploreChild(g, path, n, child);
      if r.DependencyCycle? {
        return;
      }
      GatherOne(g, Children(children[..i]), child);
      deps := deps + r.deps;
    }
    assert children[..|children|] == children;
    GatherChildren(g, n);
    NotOnCycle(g, path + [n], n);
    return Deps(deps);
  }

  /** The call for one child, with the handler that extends a cycle report. */
  method ExploreChild(ghost g: Graph, ghost path: seq<Node>, n: Node, child: Node) returns (r: Result)
    requires Consistent(g, path + [n]) && n in g && n !in OnPath(path) && child in g[n]
    modifies g.Keys`exploring, g.Keys`cached
    ensures Consistent(g, path + [n])
    ensures forall m | m in g && old(m.cached).Present? :: m.cached == old(m.cached)
    ensures child in g
    ensures r.Deps? ==> child.cached == Present(r.deps) && r.deps == Dependencies(g, child)
    ensures r.DependencyCycle? ==> Report(g, path, n, r.nodes)
    decreases |g.Keys - OnPath(path)|, 0
  {
    DeeperPath(g, path, n);
    assert child in g by {
      assert Closed(g);
    }
    r := GetLibdeps(g, path + [n], child);
    if r.DependencyCycle? {
      if |r.nodes| == 1 || r.nodes[0] != r.nodes[|r.nodes| - 1] {
        Prepend(g, path, n, child, r.nodes);
        return DependencyCycle([n] + r.nodes);
      }
      ReachThroughChild(g, n, child, r.nodes[0]);
    } else {
      assert CachedRight(g, child);
    }
  }

  lemma GatherNone(g: Graph)
    ensures Children([]) == {} && Gather(g, {}) == {}
  {
  }

  lemma ChildrenPrefix(list: seq<Node?>, i: nat)
    requires i < |list|
    ensures list[i] == null ==> Children(list[..i + 1]) == Children(list[..i])
    ensures list[i] != null ==> Children(list[..i + 1]) == Children(list[..i]) + {list[i]} && list[i] in Children(list)
    decreases |list| - i
  {
    assert list[..i + 1][..i] == list[..i];
    if list[i] != null {
      ChildrenMember(list, i);
    }
  }

  lemma {:induction false} ChildrenMember(list: seq<Node?>, i: nat)
    requires i < |list| && list[i] != null
    ensures list[i] in Children(list)
    decreases |list|
  {
    if i < |list| - 1 {
      ChildrenMember(list[..|list| - 1], i);
    }
  }

  lemma DeeperPath(g: Graph, path: seq<Node>, n: Node)
    requires n in g && n !in OnPath(path)
    ensures |g.Keys - OnPath(path + [n])| < |g.Keys - OnPath(path)|
  {
    assert g.Keys - OnPath(path + [n]) == (g.Keys - OnPath(path)) - {n};
  }

  lemma ReachThroughChild(g: Graph, n: Node, c: Node, m: Node)
    requires n in g && c in g[n] && ReachesOrIs(g, c, m)
    ensures ReachesOrIs(g, n, m)
  {
    EdgeReaches(g, n, c);
    ReachesTransitive(g, n, c, m);
  }

  /** A node that is being explored and whose children are all cached lies on no cycle. */
  lemma NotOnCycle(g: Graph, path: seq<Node>, n: Node)
    requires Consistent(g, path) && n in g && n in path
    requires forall c | c in g[n] :: c.cached.Present?
    ensures n !in Dependencies(g, n)
  {
    if Reaches(g, n, n) {
      ReachesByChild(g, n, n);
      var c :| c in g[n] && ReachesOrIs(g, c, n);
      CachedReach(g, path, c, n);
    }
  }

  // ----- queries

  /** The outcome of a query as a fact about the graph alone. */
  ghost predicate RightAnswer(g: Graph, n: Node, r: Result) {
    match r
    case Deps(deps) => !CycleFrom(g, n) && deps == Dependencies(g, n)
    case DependencyCycle(nodes) => CycleFrom(g, n) && SimpleCycle(g, nodes) && ReachesOrIs(g, n, nodes[0])
  }

  lemma ReportedCycle(g: Graph, n: Node, nodes: seq<Node>)
    requires SimpleCycle(g, nodes) && ReachesOrIs(g, n, nodes[0])
    ensures CycleFrom(g, n)
  {
    WalkReaches(g, nodes, 0, |nodes| - 1);
  }

  /** A query at the outermost level: a cycle is reported exactly when one can be reached,
      the reported nodes are a simple cycle, and all flags are cleared on both ways out. */
  method Query(ghost g: Graph, n: Node) returns (r: Result)
    requires Consistent(g, []) && n in g
    modifies g.Keys`exploring, g.Keys`cached
    ensures Consistent(g, [])
    ensures forall m | m in g :: !m.exploring
    ensures RightAnswer(g, n, r)
  {
    r := GetLibdeps(g, [], n);
    if r.Deps? {
      forall c | c in g && ReachesOrIs(g, n, c)
        ensures !Reaches(g, c, c)
      {
        CachedReach(g, [], n, c);
      }
      assert CachedRight(g, n);
    } else {
      ReportedCycle(g, n, r.nodes);
    }
  }

  /** Any sequence of queries, failed ones included: each answer is what a search without
      a cache would find. */
  method Queries(ghost g: Graph, ns: seq<Node>) returns (rs: seq<Result>)
    requires Consistent(g, []) && forall n | n in ns :: n in g
    modifies g.Keys`exploring, g.Keys`cached
    ensures Consistent(g, [])
    ensures |rs| == |ns| && forall i | 0 <= i < |ns| :: RightAnswer(g, ns[i], rs[i])
  {
    rs := [];
    for i := 0 to |ns|
      invariant Consistent(g, [])
      invariant |rs| == i && forall k | 0 <= k < i :: RightAnswer(g, ns[k], rs[k])
    {
      var r := Query(g, ns[i]);
      rs := rs + [r];
    }
  }
}
