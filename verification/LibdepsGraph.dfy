/** Reachability in a finite dependency graph, by counting steps. */
module LibdepsGraph {

  /** A library node with its string form and the attributes that dependency tracking
      hangs on it.  A null child stands for a false entry in the list. */
  class Node {
    const name: string
    var libdepsDirect: seq<Node?>
    var exploring: bool
    var cached: Cached

    constructor (name: string)
      ensures this.name == name && libdepsDirect == [] && !exploring && cached == Absent
    {
      this.name := name;
      libdepsDirect, exploring, cached := [], false, Absent;
    }
  }

  datatype Cached = Absent | Present(deps: set<Node>)

  /** The direct edges, as a value. */
  type Graph = map<Node, set<Node>>

  ghost predicate Closed(g: Graph) {
    forall n | n in g :: g[n] <= g.Keys
  }

  /** The nodes at the end of walks of exactly `k` edges from `a`. */
  ghost function Steps(g: Graph, a: Node, k: nat): set<Node>
    decreases k
  {
    if k == 0 then {a} else set p, m | p in Steps(g, a, k - 1) && p in g && m in g[p] :: m
  }

  /** `b` can be reached from `a` over one or more edges. */
  ghost predicate Reaches(g: Graph, a: Node, b: Node) {
    exists k: nat :: k > 0 && b in Steps(g, a, k)
  }

  /** `b` is `a` or can be reached from it. */
  ghost predicate ReachesOrIs(g: Graph, a: Node, b: Node) {
    a == b || Reaches(g, a, b)
  }

  /** All library dependencies of `a`, direct and indirect. */
  ghost function Dependencies(g: Graph, a: Node): set<Node> {
    set b | b in g && Reaches(g, a, b)
  }

  ghost predicate CycleFrom(g: Graph, a: Node) {
    exists c :: c in g && ReachesOrIs(g, a, c) && Reaches(g, c, c)
  }

  /** Walks can be joined. */
  lemma {:induction false} StepsJoin(g: Graph, a: Node, j: nat, b: Node, k: nat, c: Node)
    requires b in Steps(g, a, j) && c in Steps(g, b, k)
    ensures c in Steps(g, a, j + k)
    decreases k
  {
    if k > 0 {
      var p :| p in Steps(g, b, k - 1) && p in g && c in g[p];
      StepsJoin(g, a, j, b, k - 1, p);
    }
  }

  lemma EdgeReaches(g: Graph, a: Node, b: Node)
    requires a in g && b in g[a]
    ensures Reaches(g, a, b)
  {
    assert a in Steps(g, a, 0);
    assert b in Steps(g, a, 1);
  }

  lemma ReachesTransitive(g: Graph, a: Node, b: Node, c: Node)
    requires ReachesOrIs(g, a, b) && ReachesOrIs(g, b, c)
    ensures ReachesOrIs(g, a, c)
    ensures Reaches(g, a, b) || Reaches(g, b, c) ==> Reaches(g, a, c)
  {
    if a != b && b != c {
      var j: nat :| j > 0 && b in Steps(g, a, j);
      var k: nat :| k > 0 && c in Steps(g, b, k);
      StepsJoin(g, a, j, b, k, c);
    } else if Reaches(g, a, b) && Reaches(g, b, c) {
      var j: nat :| j > 0 && b in Steps(g, a, j);
      var k: nat :| k > 0 && c in Steps(g, b, k);
      StepsJoin(g, a, j, b, k, c);
    }
  }

  /** A walk of at least one edge begins with an edge. */
  lemma {:induction false} FirstEdge(g: Graph, a: Node, k: nat, c: Node) returns (b: Node)
    requires k > 0 && c in Steps(g, a, k)
    ensures a in g && b in g[a] && c in Steps(g, b, k - 1)
    decreases k
  {
    var p :| p in Steps(g, a, k - 1) && p in g && c in g[p];
    if k == 1 {
      b := c;
    } else {
      b := FirstEdge(g, a, k - 1, p);
    }
  }

  /** The dependencies of a node are its children and their dependencies. */
  lemma ReachesByChild(g: Graph, a: Node, c: Node)
    requires a in g
    ensures Reaches(g, a, c) <==> exists b :: b in g[a] && ReachesOrIs(g, b, c)
  {
    if Reaches(g, a, c) {
      var k: nat :| k > 0 && c in Steps(g, a, k);
      var b := FirstEdge(g, a, k, c);
      if k == 1 {
        assert b == c;
      } else {
        assert Reaches(g, b, c);
      }
    }
    if b :| b in g[a] && ReachesOrIs(g, b, c) {
      EdgeReaches(g, a, b);
      ReachesTransitive(g, a, b, c);
    }
  }

  /** A set that is closed under edges holds everything that its members reach. */
  lemma {:induction false} ClosedSetHolds(g: Graph, s: set<Node>, a: Node, k: nat)
    requires a in s && forall n | n in s :: n in g && g[n] <= s
    ensures Steps(g, a, k) <= s
    decreases k
  {
    if k > 0 {
      ClosedSetHolds(g, s, a, k - 1);
    }
  }

  // ----- walks

  ghost predicate IsWalk(g: Graph, w: seq<Node>) {
    && (forall i | 0 <= i < |w| :: w[i] in g)
    && (forall i | 0 <= i < |w| - 1 :: w[i + 1] in g[w[i]])
  }

  ghost predicate NoRepeats(w: seq<Node>) {
    forall i, j | 0 <= i < j < |w| :: w[i] != w[j]
  }

  /** A walk that ends where it began and repeats no other node. */
  ghost predicate SimpleCycle(g: Graph, w: seq<Node>) {
    && |w| >= 2
    && IsWalk(g, w)
    && w[0] == w[|w| - 1]
    && NoRepeats(w[..|w| - 1])
  }

  lemma {:induction false} WalkReaches(g: Graph, w: seq<Node>, i: nat, j: nat)
    requires IsWalk(g, w) && i < j < |w|
    ensures Reaches(g, w[i], w[j])
    decreases j
  {
    EdgeReaches(g, w[j - 1], w[j]);
    if i < j - 1 {
      WalkReaches(g, w, i, j - 1);
      ReachesTransitive(g, w[i], w[j - 1], w[j]);
    }
  }
}
