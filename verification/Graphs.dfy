/** Finite directed graphs as adjacency maps: paths, reachability, strongly connected sets. */
module Graphs {

  /** `g[x]` is the set of targets of `x`; a node that only occurs as a target has no entry. */
  type Graph<!T> = map<T, set<T>>

  function Succ<T>(g: Graph<T>, x: T): set<T> {
    if x in g then g[x] else {}
  }

  /** All nodes: the keys and every target. */
  ghost function Nodes<T>(g: Graph<T>): set<T> {
    g.Keys + set x, y | x in g && y in g[x] :: y
  }

  /** A non-empty walk whose consecutive nodes are edges; a single node is a path. */
  ghost predicate IsPath<T>(g: Graph<T>, p: seq<T>) {
    |p| > 0 && forall i :: 0 < i < |p| ==> p[i] in Succ(g, p[i - 1])
  }

  ghost predicate Reach<T(!new)>(g: Graph<T>, x: T, y: T) {
    exists p: seq<T> :: IsPath(g, p) && p[0] == x && p[|p| - 1] == y
  }

  /** `x` and `y` lie on a common closed walk (or are equal). */
  ghost predicate Mutual<T(!new)>(g: Graph<T>, x: T, y: T) {
    Reach(g, x, y) && Reach(g, y, x)
  }

  ghost predicate Closed<T(!new)>(g: Graph<T>, s: set<T>) {
    forall x, y :: x in s && y in Succ(g, x) ==> y in s
  }

  lemma ReachRefl<T(!new)>(g: Graph<T>, x: T)
    ensures Reach(g, x, x)
  {
    assert IsPath(g, [x]);
  }

  lemma ReachTrans<T(!new)>(g: Graph<T>, x: T, y: T, z: T)
    requires Reach(g, x, y) && Reach(g, y, z)
    ensures Reach(g, x, z)
  {
    var p :| IsPath(g, p) && p[0] == x && p[|p| - 1] == y;
    var q :| IsPath(g, q) && q[0] == y && q[|q| - 1] == z;
    var r := p + q[1..];
    assert forall i :: |p| <= i < |r| ==> r[i] == q[i - |p| + 1];
    assert IsPath(g, r);
  }

  lemma ReachEdge<T(!new)>(g: Graph<T>, x: T, y: T)
    requires y in Succ(g, x)
    ensures Reach(g, x, y)
  {
    assert IsPath(g, [x, y]);
  }

  /** A path never leaves a successor-closed set. */
  lemma {:induction false} PathStaysIn<T(!new)>(g: Graph<T>, s: set<T>, p: seq<T>, k: nat)
    requires Closed(g, s) && IsPath(g, p) && p[0] in s && k < |p|
    ensures p[k] in s
  {
    if k > 0 {
      PathStaysIn(g, s, p, k - 1);
    }
  }

  lemma ReachStaysIn<T(!new)>(g: Graph<T>, s: set<T>, x: T, y: T)
    requires Closed(g, s) && x in s && Reach(g, x, y)
    ensures y in s
  {
    var p :| IsPath(g, p) && p[0] == x && p[|p| - 1] == y;
    PathStaysIn(g, s, p, |p| - 1);
  }
}
