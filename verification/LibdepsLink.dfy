/** From recorded edges to the link line: the emitters, the sort by string, and the list
    that `_LIBDEPS` expands to. */
module LibdepsLink {
  import opened LibdepsGraph
  import opened Libdeps

  // ----- strings in the order of Python's cmp

  predicate StrLe(a: string, b: string) {
    a == [] || (b != [] && (a[0] < b[0] || (a[0] == b[0] && StrLe(a[1..], b[1..]))))
  }

  lemma {:induction false} StrLeTotal(a: string, b: string)
    ensures StrLe(a, b) || StrLe(b, a)
  {
    if a != [] && b != [] && a[0] == b[0] {
      StrLeTotal(a[1..], b[1..]);
    }
  }

  lemma {:induction false} StrLeAntisymmetric(a: string, b: string)
    requires StrLe(a, b) && StrLe(b, a)
    ensures a == b
  {
    if a != [] && b != [] {
      StrLeAntisymmetric(a[1..], b[1..]);
      assert a == [a[0]] + a[1..] && b == [b[0]] + b[1..];
    }
  }

  lemma {:induction false} StrLeTransitive(a: string, b: string, c: string)
    requires StrLe(a, b) && StrLe(b, c)
    ensures StrLe(a, c)
  {
    if a != [] && a[0] == b[0] && b[0] == c[0] {
      StrLeTransitive(a[1..], b[1..], c[1..]);
    }
  }

  // ----- sorting

  predicate Sorted(s: seq<Node>) {
    forall i, j | 0 <= i < j < |s| :: StrLe(s[i].name, s[j].name)
  }

  /** sorted_by_str on a set: the elements are taken in whatever order the set yields them
      and inserted after those with a smaller or equal string. */
  method SortedByStr(s: set<Node>) returns (r: seq<Node>)
    ensures Sorted(r) && multiset(r) == multiset(s)
  {
    r := [];
    var rest := s;
    while rest != {}
      invariant Sorted(r) && rest <= s && multiset(r) == multiset(s - rest)
      decreases |rest|
    {
      var n :| n in rest;
      assert s - (rest - {n}) == (s - rest) + {n};
      r := InsertByStr(r, n);
      rest := rest - {n};
    }
    assert s - rest == s;
  }

  method InsertByStr(s: seq<Node>, n: Node) returns (r: seq<Node>)
    requires Sorted(s)
    ensures Sorted(r) && multiset(r) == multiset(s) + multiset{n}
  {
    hide StrLe;
    var i := |s|;
    while i > 0 && !StrLe(s[i - 1].name, n.name)
      invariant 0 <= i <= |s|
      invariant forall k | i <= k < |s| :: StrLe(n.name, s[k].name)
    {
      StrLeTotal(s[i - 1].name, n.name);
      i := i - 1;
    }
    forall k | 0 <= k < i
      ensures StrLe(s[k].name, n.name)
    {
      if k < i - 1 {
        StrLeTransitive(s[k].name, s[i - 1].name, n.name);
      }
    }
    assert s == s[..i] + s[i..];
    r := s[..i] + [n] + s[i..];
  }

  predicate DistinctStrings(ns: set<Node>) {
    forall a, b | a in ns && b in ns && a.name == b.name :: a == b
  }

  /** The link list of a set of libraries. */
  ghost predicate IsLinkList(deps: set<Node>, list: seq<Node>) {
    Sorted(list) && multiset(list) == multiset(deps)
  }

  /** When the strings are distinct there is only one link list, so it does not depend on
      the order of queries, of emitters or of set iteration. */
  lemma {:induction false} LinkListUnique(deps: set<Node>, a: seq<Node>, b: seq<Node>)
    requires IsLinkList(deps, a) && IsLinkList(deps, b) && DistinctStrings(deps)
    ensures a == b
    decreases |a|
  {
    if a == [] {
      assert |multiset(b)| == 0;
    } else {
      FirstIsLeast(deps, a, b);
      var rest := deps - {a[0]};
      RestIsLinkList(deps, a);
      RestIsLinkList(deps, b);
      LinkListUnique(rest, a[1..], b[1..]);
      assert a == [a[0]] + a[1..] && b == [b[0]] + b[1..];
    }
  }

  lemma Members(deps: set<Node>, list: seq<Node>, n: Node)
    requires multiset(list) == multiset(deps)
    ensures n in list <==> n in deps
  {
    assert n in list <==> n in multiset(list);
    assert n in deps <==> n in multiset(deps);
  }

  lemma FirstIsLeast(deps: set<Node>, a: seq<Node>, b: seq<Node>)
    requires IsLinkList(deps, a) && IsLinkList(deps, b) && DistinctStrings(deps) && a != []
    ensures b != [] && a[0] == b[0]
  {
    assert |a| == |multiset(a)| == |multiset(b)| == |b|;
    Members(deps, a, a[0]);
    Members(deps, b, a[0]);
    Members(deps, b, b[0]);
    Members(deps, a, b[0]);
    LeastFirst(a, b[0]);
    LeastFirst(b, a[0]);
    StrLeAntisymmetric(a[0].name, b[0].name);
  }

  lemma LeastFirst(s: seq<Node>, n: Node)
    requires Sorted(s) && n in s
    ensures StrLe(s[0].name, n.name)
  {
    var i :| 0 <= i < |s| && s[i] == n;
    if i == 0 {
      StrLeTotal(n.name, n.name);
    }
  }

  lemma RestIsLinkList(deps: set<Node>, a: seq<Node>)
    requires IsLinkList(deps, a) && a != []
    ensures IsLinkList(deps - {a[0]}, a[1..])
  {
    assert a == [a[0]] + a[1..];
    Members(deps, a, a[0]);
    assert multiset(deps - {a[0]}) == multiset(deps) - multiset{a[0]};
  }

  datatype LinkResult = Link(list: seq<Node>) | Cyclic(nodes: seq<Node>)

  /** get_libdeps: the sorted dependencies of the target, or the cycle error. */
  method GetLinkList(ghost g: Graph, target: Node) returns (r: LinkResult)
    requires Consistent(g, []) && target in g
    modifies g.Keys`exploring, g.Keys`cached
    ensures Consistent(g, [])
    ensures r.Link? <==> !CycleFrom(g, target)
    ensures r.Link? ==> IsLinkList(Dependencies(g, target), r.list)
    ensures r.Cyclic? ==> RightAnswer(g, target, DependencyCycle(r.nodes))
  {
    var q := Query(g, target);
    if q.DependencyCycle? {
      return Cyclic(q.nodes);
    }
    var list := SortedByStr(q.deps);
    return Link(list);
  }

  // ----- emitters

  /** One call of the function that appends direct dependencies to a target, which may be
      a plain string and is then left alone. */
  datatype Target = Plain(s: string) | Object(node: Node)

  datatype Emission = Emission(target: Target, prereqs: seq<Node?>)

  method AppendDirectLibdeps(e: Emission)
    modifies if e.target.Object? then {e.target.node} else {}
    ensures e.target.Object? ==>
              && e.target.node.libdepsDirect == old(e.target.node.libdepsDirect) + e.prereqs
              && e.target.node.exploring == old(e.target.node.exploring)
              && e.target.node.cached == old(e.target.node.cached)
  {
    if e.target.Plain? {
      return;
    }
    e.target.node.libdepsDirect := e.target.node.libdepsDirect + e.prereqs;
  }

  /** The edges that a sequence of emissions records for a node. */
  ghost function Emitted(es: seq<Emission>, n: Node): set<Node> {
    set e, c | e in es && e.target == Object(n) && c in Children(e.prereqs) :: c
  }

  lemma {:induction false} ChildrenConcat(a: seq<Node?>, b: seq<Node?>)
    ensures Children(a + b) == Children(a) + Children(b)
    decreases |b|
  {
    if b == [] {
      assert a + b == a;
    } else {
      assert (a + b)[..|a + b| - 1] == a + b[..|b| - 1];
      ChildrenConcat(a, b[..|b| - 1]);
    }
  }

  /** All emitters run before any query: they record exactly the emitted edges, and leave
      nodes that start without flags and cache in a state from which queries can be made. */
  method RunEmitters(es: seq<Emission>, ghost g: Graph)
    requires Closed(g)
    requires forall e | e in es && e.target.Object? :: e.target.node in g
    requires forall n | n in g :: n.libdepsDirect == [] && !n.exploring && n.cached == Absent
    requires forall n | n in g :: g[n] == Emitted(es, n)
    modifies g.Keys
    ensures Consistent(g, [])
  {
    hide Emitted, Children, Dependencies;
    EmittedNone();
    for i := 0 to |es|
      invariant forall n | n in g :: Children(n.libdepsDirect) == Emitted(es[..i], n)
      invariant forall n | n in g :: !n.exploring && n.cached == Absent
    {
      var e := es[i];
      assert e in es;
      assert es[..i + 1] == es[..i] + [e];
      forall n {
        EmittedOne(es[..i], e, n);
      }
      if e.target.Object? {
        ChildrenConcat(e.target.node.libdepsDirect, e.prereqs);
      }
      AppendDirectLibdeps(e);
    }
    assert es[..|es|] == es;
  }

  lemma EmittedNone()
    ensures Children([]) == {} && forall n :: Emitted([], n) == {}
  {
  }

  lemma EmittedOne(es: seq<Emission>, e: Emission, n: Node)
    ensures Emitted(es + [e], n) == Emitted(es, n) + (if e.target == Object(n) then Children(e.prereqs) else {})
  {
  }

  /** The recorded edges do not depend on the order of the emissions. */
  lemma EmissionOrder(es: seq<Emission>, es': seq<Emission>, n: Node)
    requires multiset(es) == multiset(es')
    ensures Emitted(es, n) == Emitted(es', n)
  {
    forall e
      ensures e in es <==> e in es'
    {
      assert e in es <==> e in multiset(es);
      assert e in es' <==> e in multiset(es');
    }
  }

  /** The graph that emissions record over a set of nodes. */
  ghost function EmittedGraph(nodes: set<Node>, es: seq<Emission>): Graph {
    map n | n in nodes :: Emitted(es, n)
  }

  /** The link list is the same for every order of emitters, whatever queries came first. */
  lemma LinkListOrderFree(nodes: set<Node>, es: seq<Emission>, es': seq<Emission>, n: Node, a: seq<Node>, b: seq<Node>)
    requires multiset(es) == multiset(es') && DistinctStrings(nodes)
    requires IsLinkList(Dependencies(EmittedGraph(nodes, es), n), a)
    requires IsLinkList(Dependencies(EmittedGraph(nodes, es'), n), b)
    ensures a == b
  {
    forall m | m in nodes {
      EmissionOrder(es, es', m);
    }
    assert EmittedGraph(nodes, es) == EmittedGraph(nodes, es');
    LinkListUnique(Dependencies(EmittedGraph(nodes, es), n), a, b);
  }
}
