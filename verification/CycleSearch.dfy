/** `find_cycle`: a three-colour depth-first search that reads the cycle off its own stack. */
module CycleSearch {
  import opened Wrappers
  import opened Sequences

  type Edges<!T> = seq<(T, T)>

  /** Consecutive nodes are edges. */
  ghost predicate IsWalk<T(!new)>(sites: Edges<T>, p: seq<T>) {
    forall i :: 0 < i < |p| ==> (p[i - 1], p[i]) in sites
  }

  ghost predicate IsClosedWalk<T(!new)>(sites: Edges<T>, p: seq<T>) {
    |p| >= 2 && p[0] == p[|p| - 1] && IsWalk(sites, p)
  }

  ghost predicate HasCycle<T(!new)>(sites: Edges<T>) {
    exists p: seq<T> :: IsClosedWalk(sites, p)
  }

  /** What the gate reports: a closed walk whose only repetition is its first node at its end. */
  ghost predicate IsChain<T(!new)>(sites: Edges<T>, chain: seq<T>) {
    IsClosedWalk(sites, chain) && Distinct(chain[..|chain| - 1])
  }

  /** Every edge out of a listed node enters a node listed before it. */
  ghost predicate Descends<T(!new)>(sites: Edges<T>, order: seq<T>) {
    && Distinct(order)
    && forall e, i :: e in sites && 0 <= i < |order| && order[i] == e.0 ==>
         exists j :: 0 <= j < i && order[j] == e.1
  }

  /** A listing of every source in which each edge leads back in the list. */
  ghost predicate IsTopologicalOrder<T(!new)>(sites: Edges<T>, order: seq<T>) {
    Descends(sites, order) && forall e :: e in sites ==> e.0 in order
  }

  /** Along a walk that starts in a descending list the positions only fall. */
  lemma {:induction false} WalkDescends<T(!new)>(sites: Edges<T>, order: seq<T>, p: seq<T>, k: nat, i: nat)
    returns (j: nat)
    requires Descends(sites, order) && IsWalk(sites, p) && k < |p|
    requires i < |order| && order[i] == p[0]
    ensures j + k <= i && order[j] == p[k]
  {
    if k == 0 {
      return i;
    }
    var j' := WalkDescends(sites, order, p, k - 1, i);
    var e := (p[k - 1], p[k]);
    assert e in sites;
    j :| 0 <= j < j' && order[j] == e.1;
  }

  /** A topological order rules every cycle out. */
  lemma OrderMeansAcyclic<T(!new)>(sites: Edges<T>, order: seq<T>)
    requires IsTopologicalOrder(sites, order)
    ensures !HasCycle(sites)
  {
    if HasCycle(sites) {
      var p :| IsClosedWalk(sites, p);
      assert (p[0], p[1]) in sites;
      var i :| 0 <= i < |order| && order[i] == p[0];
      var j := WalkDescends(sites, order, p, |p| - 1, i);
      assert false;
    }
  }

  datatype Color = Grey | Black

  /** Grey nodes are exactly the stack, which is a walk; black nodes are exactly `finished`, which descends. */
  ghost predicate Inv<T(!new)>(sites: Edges<T>, color: map<T, Color>, stack: seq<T>, finished: seq<T>) {
    && Distinct(stack) && IsWalk(sites, stack)
    && (forall x :: x in stack <==> x in color && color[x].Grey?)
    && (forall x :: x in finished <==> x in color && color[x].Black?)
    && Descends(sites, finished)
  }

  ghost function Ends<T>(sites: Edges<T>): set<T> {
    (set e | e in sites :: e.0) + (set e | e in sites :: e.1)
  }

  class Search<T(==, !new)> {
    const sites: Edges<T>
    var color: map<T, Color>
    var stack: seq<T>
    ghost var finished: seq<T>

    ghost predicate Valid()
      reads this
    {
      Inv(sites, color, stack, finished)
    }

    constructor (sites: Edges<T>)
      ensures this.sites == sites && color == map[] && stack == [] && Valid()
    {
      this.sites := sites;
      color, stack, finished := map[], [], [];
    }

    /** `visit`: None once `node` is black, or the grey node an edge from the top of the stack leads back to. */
    method Visit(node: T) returns (found: Option<T>)
      requires Valid() && node !in color && node in Ends(sites)
      requires stack == [] || (stack[|stack| - 1], node) in sites
      modifies this
      ensures Valid() && old(color.Keys) <= color.Keys && old(finished) <= finished
      ensures found.None? ==> stack == old(stack) && node in finished
      ensures found.Some? ==> stack != [] && found.value in stack && (stack[|stack| - 1], found.value) in sites
      decreases Ends(sites) - color.Keys
    {
      hide Inv, Ends;
      Grow(sites, color, stack, finished, node);
      color := color[node := Grey];
      stack := stack + [node];
      var i := 0;
      while i < |sites|
        invariant i <= |sites| && Valid() && stack == old(stack) + [node]
        invariant old(color.Keys) + {node} <= color.Keys && old(finished) <= finished
        invariant forall e :: e in sites[..i] && e.0 == node ==> e.1 in finished
      {
        var (src, dst) := sites[i];
        i := i + 1;
        assert (src, dst) in sites;
        Known(sites, color, stack, finished, node, (src, dst));
        if src != node {
          continue;
        }
        if dst !in color {
          found := Visit(dst);
          if found.Some? {
            return;
          }
        } else if color[dst].Grey? {
          return Some(dst);
        }
      }
      Finish(sites, color, old(stack), finished, node);
      color := color[node := Black];
      stack := stack[..|stack| - 1];
      finished := finished + [node];
      found := None;
    }
  }

  /** A coloured target is grey on the stack or black in the finished list; every target is a node. */
  lemma Known<T(!new)>(sites: Edges<T>, color: map<T, Color>, stack: seq<T>, finished: seq<T>, m: T, e: (T, T))
    requires Inv(sites, color, stack, finished) && e in sites && m in stack
    ensures e.1 in Ends(sites)
    ensures e.1 in color ==> if color[e.1].Grey? then e.1 in stack else e.1 in finished
    ensures m in color
  {
  }

  lemma Grow<T(!new)>(sites: Edges<T>, color: map<T, Color>, stack: seq<T>, finished: seq<T>, m: T)
    requires Inv(sites, color, stack, finished) && m !in color
    requires stack == [] || (stack[|stack| - 1], m) in sites
    ensures Inv(sites, color[m := Grey], stack + [m], finished)
  {
  }

  lemma Finish<T(!new)>(sites: Edges<T>, color: map<T, Color>, stack: seq<T>, finished: seq<T>, m: T)
    requires Inv(sites, color, stack + [m], finished)
    requires forall e :: e in sites && e.0 == m ==> e.1 in finished
    ensures Inv(sites, color[m := Black], stack, finished + [m])
  {
    var grown := stack + [m];
    assert grown[|stack|] == m && m in grown;
    assert forall i :: 0 <= i < |stack| ==> stack[i] == grown[i];
    var order := finished + [m];
    forall e, i | e in sites && 0 <= i < |order| && order[i] == e.0
      ensures exists j :: 0 <= j < i && order[j] == e.1
    {
      if i < |finished| {
        var j :| 0 <= j < i && finished[j] == e.1;
        assert order[j] == e.1;
      } else {
        var j :| 0 <= j < |finished| && finished[j] == e.1;
        assert order[j] == e.1;
      }
    }
  }

  /** `stack[stack.index(found):] + [found]`. */
  function ChainFrom<T(==)>(stack: seq<T>, found: T): (chain: seq<T>)
    requires found in stack
    ensures exists k :: 0 <= k < |stack| && stack[k] == found && found !in stack[..k] && chain == stack[k..] + [found]
  {
    if stack[0] == found then stack + [found] else ChainFrom(stack[1..], found)
  }

  /** The gate's search: a chain exactly when the edges have a cycle, and a topological order otherwise. */
  method FindCycle<T(==, !new)>(sites: Edges<T>) returns (chain: Option<seq<T>>)
    ensures chain.Some? ==> IsChain(sites, chain.value)
    ensures chain.Some? <==> HasCycle(sites)
    ensures chain.None? ==> exists order :: IsTopologicalOrder(sites, order)
  {
    var search := new Search(sites);
    var i := 0;
    while i < |sites|
      invariant i <= |sites| && fresh(search) && search.sites == sites
      invariant search.Valid() && search.stack == []
      invariant forall e :: e in sites[..i] ==> e.0 in search.finished
    {
      var m := sites[i].0;
      assert sites[i] in sites;
      if m !in search.color {
        var found := search.Visit(m);
        if found.Some? {
          var c := ChainFrom(search.stack, found.value);
          BackEdgeChain(sites, search.stack, found.value, c);
          return Some(c);
        }
      }
      i := i + 1;
    }
    assert IsTopologicalOrder(sites, search.finished);
    OrderMeansAcyclic(sites, search.finished);
    return None;
  }

  lemma BackEdgeChain<T(!new)>(sites: Edges<T>, stack: seq<T>, found: T, chain: seq<T>)
    requires Distinct(stack) && IsWalk(sites, stack) && found in stack
    requires (stack[|stack| - 1], found) in sites
    requires exists k :: 0 <= k < |stack| && stack[k] == found && chain == stack[k..] + [found]
    ensures IsChain(sites, chain)
  {
    var k :| 0 <= k < |stack| && stack[k] == found && chain == stack[k..] + [found];
    forall i | 0 < i < |chain| ensures (chain[i - 1], chain[i]) in sites {
      assert chain[i - 1] == stack[k + i - 1];
      if i < |chain| - 1 {
        assert chain[i] == stack[k + i];
      }
    }
    assert chain[..|chain| - 1] == stack[k..];
  }
}
