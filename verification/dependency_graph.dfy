/**
 * The registry's dependency graph: for each bean name, the names recorded as
 * depending on it, and the transitive "is dependent" query over it. The graph
 * may contain cycles; a name is dependent on itself exactly when it lies on one.
 */
module DependencyGraph {

  /** Edge `n -> d` is present when `d in g[n]`: `d` was recorded as dependent on `n`. */
  type Graph = map<string, set<string>>

  /** The names recorded as directly dependent on `n`. */
  function Dependents(g: Graph, n: string): (ds: set<string>) {
    if n in g then g[n] else {}
  }

  /** Every name that occurs as the dependent end of some edge. */
  function Targets(g: Graph): (ts: set<string>) {
    set n, d | n in g && d in g[n] :: d
  }

  /** Records that `dependent` depends on `n`: exactly that edge is added. */
  function AddEdge(g: Graph, n: string, dependent: string): (g': Graph)
    ensures forall x, y :: y in Dependents(g', x) <==> y in Dependents(g, x) || (x == n && y == dependent)
  {
    g[n := Dependents(g, n) + {dependent}]
  }

  /** `p` follows recorded edges and has at least one edge. */
  ghost predicate IsPath(g: Graph, p: seq<string>) {
    |p| >= 2 && forall i :: 0 <= i < |p| - 1 ==> p[i + 1] in Dependents(g, p[i])
  }

  /** `b` is reachable from `a` by a non-empty path of recorded edges. */
  ghost predicate Reaches(g: Graph, a: string, b: string) {
    exists p :: IsPath(g, p) && p[0] == a && p[|p| - 1] == b
  }

  /** A set that holds the direct dependents of each of its members. */
  ghost predicate Closed(g: Graph, s: set<string>) {
    forall x :: x in s ==> Dependents(g, x) <= s
  }

  lemma ReachesByEdge(g: Graph, a: string, b: string)
    requires b in Dependents(g, a)
    ensures Reaches(g, a, b)
  {
    assert IsPath(g, [a, b]);
  }

  lemma ReachesExtend(g: Graph, a: string, x: string, y: string)
    requires Reaches(g, a, x)
    requires y in Dependents(g, x)
    ensures Reaches(g, a, y)
  {
    var p :| IsPath(g, p) && p[0] == a && p[|p| - 1] == x;
    var q := p + [y];
    assert IsPath(g, q);
  }

  /** Every vertex after the first of a path lies in any closed set containing the first vertex's dependents. */
  lemma {:induction false} PathStaysInClosedSet(g: Graph, p: seq<string>, s: set<string>, k: int)
    requires IsPath(g, p)
    requires Dependents(g, p[0]) <= s
    requires Closed(g, s)
    requires 1 <= k < |p|
    ensures p[k] in s
    decreases k
  {
    assert p[k] in Dependents(g, p[k - 1]);
    if k > 1 {
      PathStaysInClosedSet(g, p, s, k - 1);
    }
  }

  /** A closed set containing the direct dependents of `a` contains everything reachable from `a`. */
  lemma ClosedSetContainsReachable(g: Graph, a: string, s: set<string>, b: string)
    requires Dependents(g, a) <= s
    requires Closed(g, s)
    requires Reaches(g, a, b)
    ensures b in s
  {
    var p :| IsPath(g, p) && p[0] == a && p[|p| - 1] == b;
    PathStaysInClosedSet(g, p, s, |p| - 1);
  }

  /** Only a name at the dependent end of some edge can be reached. */
  lemma ReachedHasIncomingEdge(g: Graph, a: string, b: string)
    ensures Reaches(g, a, b) ==> b in Targets(g)
  {
    if Reaches(g, a, b) {
      var p :| IsPath(g, p) && p[0] == a && p[|p| - 1] == b;
      var n := p[|p| - 2];
      assert b in Dependents(g, n);
      assert n in g;
    }
  }

  /**
   * The transitive dependency query: is `other` reachable from `n` by one or
   * more recorded edges? A worklist traversal that expands every name at most
   * once, so it terminates on cyclic graphs.
   */
  method IsDependent(g: Graph, n: string, other: string) returns (r: bool)
    ensures r <==> Reaches(g, n, other)
  {
    var reached := Dependents(g, n);
    var todo := reached;
    ghost var expanded: set<string> := {};
    forall y | y in reached
      ensures Reaches(g, n, y)
    {
      ReachesByEdge(g, n, y);
    }
    while todo != {}
      invariant todo <= reached
      invariant expanded == reached - todo
      invariant Dependents(g, n) <= reached <= Targets(g)
      invariant forall x :: x in reached ==> Reaches(g, n, x)
      invariant forall x :: x in expanded ==> Dependents(g, x) <= reached
      decreases Targets(g) - expanded
    {
      if other in reached {
        return true;
      }
      var x :| x in todo;
      var found := Dependents(g, x) - reached;
      forall y | y in found
        ensures Reaches(g, n, y)
      {
        ReachesExtend(g, n, x, y);
      }
      reached := reached + found;
      todo := todo - {x} + found;
      expanded := expanded + {x};
    }
    if other in reached {
      return true;
    }
    assert Closed(g, reached);
    if Reaches(g, n, other) {
      ClosedSetContainsReachable(g, n, reached, other);
    }
    r := false;
  }
}
