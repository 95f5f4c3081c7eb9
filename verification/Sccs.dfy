/** `package_sccs`: Tarjan's strongly connected components with indexes, low-links and a stack. */
module Sccs {
  import opened Graphs
  import opened Sequences

  /** The values of the algorithm's mutable variables at one moment, the low-links apart. */
  datatype State<T> = State(index: map<T, nat>, stack: seq<T>, order: nat, comps: seq<seq<T>>)

  ghost predicate Emitted<T(!new)>(comps: seq<seq<T>>, x: T) {
    exists i :: 0 <= i < |comps| && x in comps[i]
  }

  /** One whole class of mutual reachability, listed without repetition. */
  ghost predicate IsScc<T(!new)>(g: Graph<T>, comp: seq<T>) {
    && comp != [] && Distinct(comp)
    && forall x, y :: x in comp ==> (y in comp <==> Mutual(g, x, y))
  }

  ghost predicate AreSccs<T(!new)>(g: Graph<T>, comps: seq<seq<T>>) {
    && (forall i :: 0 <= i < |comps| ==> IsScc(g, comps[i]))
    && (forall i, j, x :: 0 <= i < j < |comps| && x in comps[i] ==> x !in comps[j])
  }

  /** Every edge leaving a component enters that component or an earlier one. */
  ghost predicate ReverseTopological<T(!new)>(g: Graph<T>, comps: seq<seq<T>>) {
    forall i, x, y :: 0 <= i < |comps| && x in comps[i] && y in Succ(g, x) ==>
      exists j :: 0 <= j <= i && y in comps[j]
  }

  /** The specification of `package_sccs`. */
  ghost predicate IsSccList<T(!new)>(g: Graph<T>, comps: seq<seq<T>>) {
    && AreSccs(g, comps)
    && ReverseTopological(g, comps)
    && (forall x :: x in Nodes(g) <==> Emitted(comps, x))
  }

  // The invariant of the depth-first search. `gray` are the nodes whose visit is under way.

  /** Visited nodes are graph nodes numbered below `order`, and lie on the stack or in one component. */
  ghost predicate Numbered<T(!new)>(g: Graph<T>, s: State<T>) {
    && s.index.Keys <= Nodes(g)
    && (forall x :: x in s.index ==> s.index[x] < s.order)
    && (forall x :: x in s.index <==> x in s.stack || Emitted(s.comps, x))
    && (forall x :: x in s.stack ==> !Emitted(s.comps, x))
  }

  /** Indexes grow strictly up the stack. */
  ghost predicate Sorted<T(!new)>(s: State<T>) {
    && (forall x :: x in s.stack ==> x in s.index)
    && (forall i, j :: 0 <= i < j < |s.stack| ==> s.index[s.stack[i]] < s.index[s.stack[j]])
  }

  /** A node whose visit is over has only visited successors. */
  ghost predicate NoUnseenEdge<T(!new)>(g: Graph<T>, s: State<T>, gray: set<T>) {
    forall x, y :: x in s.index && x !in gray && y in Succ(g, x) ==> y in s.index
  }

  /** A node under visit reaches everything above it on the stack. */
  ghost predicate GrayReachesUp<T(!new)>(g: Graph<T>, s: State<T>, gray: set<T>) {
    && (forall x :: x in gray ==> x in s.stack)
    && forall x, y :: x in gray && y in s.stack && x in s.index && y in s.index && s.index[x] <= s.index[y] ==>
         Reach(g, x, y)
  }

  /** A node under visit, at or below `y`, that `y` reaches. */
  ghost predicate Anchored<T(!new)>(g: Graph<T>, s: State<T>, gray: set<T>, y: T) {
    exists x :: x in gray && x in s.index && y in s.index && s.index[x] <= s.index[y] && Reach(g, y, x)
  }

  ghost predicate AllAnchored<T(!new)>(g: Graph<T>, s: State<T>, gray: set<T>) {
    forall y :: y in s.stack ==> Anchored(g, s, gray, y)
  }

  ghost predicate Inv<T(!new)>(g: Graph<T>, s: State<T>, gray: set<T>) {
    && Numbered(g, s) && Sorted(s)
    && NoUnseenEdge(g, s, gray) && GrayReachesUp(g, s, gray) && AllAnchored(g, s, gray)
    && AreSccs(g, s.comps) && ReverseTopological(g, s.comps)
  }

  /** What all work above a state keeps of it. */
  ghost predicate Extends<T(!new)>(s: State<T>, t: State<T>) {
    && (forall x :: x in s.index ==> x in t.index && t.index[x] == s.index[x])
    && s.stack <= t.stack && s.order <= t.order && s.comps <= t.comps
  }

  /** `low` is the index of a stack node that `m` reaches. */
  ghost predicate LowReached<T(!new)>(g: Graph<T>, s: State<T>, m: T, low: nat) {
    exists y :: y in s.stack && y in s.index && s.index[y] == low && Reach(g, m, y)
  }

  /** Edges from `m` to the nodes `done` respect `low`: their targets are visited and, in `base`, not below it. */
  ghost predicate LowCovers<T(!new)>(s: State<T>, base: seq<T>, done: set<T>, low: nat) {
    forall y :: y in done ==> y in s.index && (y in base ==> low <= s.index[y])
  }

  /** No edge from the stack above position `from` enters `base` below `low`. */
  ghost predicate LowBounds<T(!new)>(g: Graph<T>, s: State<T>, from: nat, base: seq<T>, low: nat) {
    forall i, y :: from <= i < |s.stack| && y in Succ(g, s.stack[i]) && y in base && y in s.index ==> low <= s.index[y]
  }

  ghost predicate Keeps<T(!new)>(low0: map<T, nat>, low: map<T, nat>) {
    forall x :: x in low0 ==> x in low && low[x] == low0[x]
  }

  /** The inside of `visit(m)`, entered in `s0`, once the successors `done` are handled; `low` is `m`'s low-link. */
  ghost predicate Running<T(!new)>(g: Graph<T>, s0: State<T>, s: State<T>, gray: set<T>, m: T, done: set<T>, low: nat) {
    && Inv(g, s0, gray) && m !in s0.index && m in Nodes(g)
    && Inv(g, s, gray + {m})
    && Extends(s0, s)
    && s0.stack + [m] <= s.stack
    && m in s.index && s.index[m] == s0.order && low <= s.index[m]
    && LowReached(g, s, m, low)
    && LowCovers(s, s0.stack, done, low)
    && LowBounds(g, s, |s0.stack| + 1, s0.stack, low)
  }

  /** What `visit(m)`, entered in `s0`, leaves behind. */
  ghost predicate Visited<T(!new)>(g: Graph<T>, s0: State<T>, s: State<T>, gray: set<T>, m: T, low: nat) {
    && Inv(g, s, gray)
    && Extends(s0, s)
    && m in s.index && s0.order <= s.index[m] && low <= s.index[m]
    && (if m in s.stack then LowReached(g, s, m, low) else low == s.index[m])
    && LowBounds(g, s, |s0.stack|, s0.stack, low)
  }

  function Min(a: nat, b: nat): nat {
    if a <= b then a else b
  }

  // ---- entering a visit ----

  ghost predicate Entered<T(!new)>(s: State<T>, t: State<T>, m: T) {
    t == State(s.index[m := s.order], s.stack + [m], s.order + 1, s.comps)
  }

  lemma EnterNumbered<T(!new)>(g: Graph<T>, s: State<T>, t: State<T>, m: T)
    requires Numbered(g, s) && m in Nodes(g) && m !in s.index && Entered(s, t, m)
    ensures Numbered(g, t)
  {
    hide Emitted, Nodes;
  }

  lemma EnterSorted<T(!new)>(g: Graph<T>, s: State<T>, t: State<T>, m: T)
    requires Numbered(g, s) && Sorted(s) && m !in s.index && Entered(s, t, m)
    ensures Sorted(t)
  {
    hide Emitted, Nodes;
    assert forall i :: 0 <= i < |s.stack| ==> s.stack[i] in s.index;
  }

  lemma EnterEdges<T(!new)>(g: Graph<T>, s: State<T>, t: State<T>, gray: set<T>, m: T)
    requires NoUnseenEdge(g, s, gray) && Entered(s, t, m)
    ensures NoUnseenEdge(g, t, gray + {m})
  {
  }

  lemma EnterReachesUp<T(!new)>(g: Graph<T>, s: State<T>, t: State<T>, gray: set<T>, m: T)
    requires GrayReachesUp(g, s, gray) && Sorted(s) && Numbered(g, s) && m !in s.index && Entered(s, t, m)
    requires forall x :: x in gray ==> Reach(g, x, m)
    ensures GrayReachesUp(g, t, gray + {m})
  {
    hide Emitted, Nodes, Reach;
    ReachRefl(g, m);
  }

  lemma EnterAnchored<T(!new)>(g: Graph<T>, s: State<T>, t: State<T>, gray: set<T>, m: T)
    requires AllAnchored(g, s, gray) && m !in s.index && Entered(s, t, m)
    ensures AllAnchored(g, t, gray + {m})
  {
    hide Reach;
    ReachRefl(g, m);
    forall y | y in t.stack ensures Anchored(g, t, gray + {m}, y) {
      if y == m {
        assert m in gray + {m} && m in t.index;
      } else {
        assert Anchored(g, s, gray, y);
        var x :| x in gray && x in s.index && y in s.index && s.index[x] <= s.index[y] && Reach(g, y, x);
        assert x in gray + {m} && t.index[x] <= t.index[y];
      }
    }
  }

  /** Numbering `m` and pushing it starts its visit. */
  lemma Enter<T(!new)>(g: Graph<T>, s: State<T>, t: State<T>, gray: set<T>, m: T)
    requires Inv(g, s, gray)
    requires m in Nodes(g) && m !in s.index && Entered(s, t, m)
    requires forall x :: x in gray ==> Reach(g, x, m)
    ensures Running(g, s, t, gray, m, {}, s.order)
  {
    hide Sorted, NoUnseenEdge, GrayReachesUp, AllAnchored, AreSccs, ReverseTopological, Reach, Nodes, Numbered;
    EnterNumbered(g, s, t, m);
    EnterSorted(g, s, t, m);
    EnterEdges(g, s, t, gray, m);
    EnterReachesUp(g, s, t, gray, m);
    EnterAnchored(g, s, t, gray, m);
    ReachRefl(g, m);
    assert t.stack[|s.stack|] == m;
  }

  // ---- handling a successor of the node under visit ----

  /** The low-link after a numbered successor: on the stack its index may lower it, in a component it is skipped. */
  function Merged<T>(s: State<T>, low: nat, dep: T): nat
    requires dep in s.index
  {
    if dep in s.stack then Min(low, s.index[dep]) else low
  }

  lemma LowerReached<T(!new)>(g: Graph<T>, s: State<T>, m: T, low: nat, dep: T)
    requires LowReached(g, s, m, low)
    requires dep in s.index && Reach(g, m, dep)
    ensures LowReached(g, s, m, Merged(s, low, dep))
  {
    hide Reach;
  }

  lemma LowerCovers<T(!new)>(s: State<T>, base: seq<T>, done: set<T>, low: nat, dep: T)
    requires LowCovers(s, base, done, low) && base <= s.stack
    requires dep in s.index
    ensures LowCovers(s, base, done + {dep}, Merged(s, low, dep))
  {
    assert forall i :: 0 <= i < |base| ==> s.stack[i] == base[i];
  }

  lemma KnownSuccessor<T(!new)>(
    g: Graph<T>, s0: State<T>, s: State<T>, gray: set<T>, m: T, done: set<T>, low: nat, dep: T)
    requires Running(g, s0, s, gray, m, done, low)
    requires dep in Succ(g, m) && dep in s.index
    ensures Running(g, s0, s, gray, m, done + {dep}, Merged(s, low, dep))
  {
    hide Inv, Reach, Nodes, Succ, LowReached, LowCovers;
    ReachEdge(g, m, dep);
    LowerReached(g, s, m, low, dep);
    LowerCovers(s, s0.stack, done, low, dep);
  }

  lemma ChildReached<T(!new)>(g: Graph<T>, s: State<T>, u: State<T>, m: T, low: nat, dep: T, depLow: nat)
    requires LowReached(g, s, m, low) && Extends(s, u)
    requires Reach(g, m, dep)
    requires dep in u.index && low <= u.index[dep]
    requires if dep in u.stack then LowReached(g, u, dep, depLow) else depLow == u.index[dep]
    ensures LowReached(g, u, m, Min(low, depLow))
  {
    hide Reach;
    if depLow < low {
      var y :| y in u.stack && y in u.index && u.index[y] == depLow && Reach(g, dep, y);
      ReachTrans(g, m, dep, y);
    } else {
      var y :| y in s.stack && y in s.index && s.index[y] == low && Reach(g, m, y);
      assert y in u.stack;
    }
  }

  lemma ChildCovers<T(!new)>(
    s: State<T>, u: State<T>, base: seq<T>, done: set<T>, low: nat, dep: T, depLow: nat)
    requires LowCovers(s, base, done, low) && Extends(s, u)
    requires forall y :: y in base ==> y in s.index
    requires dep in u.index && dep !in s.index
    ensures LowCovers(u, base, done + {dep}, Min(low, depLow))
  {
  }

  lemma ChildBounds<T(!new)>(
    g: Graph<T>, s: State<T>, u: State<T>, from: nat, base: seq<T>, low: nat, depLow: nat)
    requires LowBounds(g, s, from, base, low) && LowBounds(g, u, |s.stack|, s.stack, depLow)
    requires Extends(s, u) && from <= |s.stack|
    requires forall y :: y in base ==> y in s.index && y in s.stack
    ensures LowBounds(g, u, from, base, Min(low, depLow))
  {
    forall i, y | from <= i < |u.stack| && y in Succ(g, u.stack[i]) && y in base && y in u.index
      ensures Min(low, depLow) <= u.index[y]
    {
      if i < |s.stack| {
        assert u.stack[i] == s.stack[i];
      }
    }
  }

  lemma PrefixMembers<T(!new)>(s: State<T>, base: seq<T>)
    requires Sorted(s) && base <= s.stack
    ensures forall y :: y in base ==> y in s.index && y in s.stack
  {
    forall y | y in base ensures y in s.index && y in s.stack {
      var i :| 0 <= i < |base| && base[i] == y;
      assert s.stack[i] == y;
    }
  }

  lemma IndexBelowOrder<T(!new)>(g: Graph<T>, s: State<T>, m: T)
    requires Numbered(g, s) && m in s.index
    ensures s.index[m] < s.order
  {
  }

  lemma ExtendsTrans<T(!new)>(s: State<T>, t: State<T>, u: State<T>)
    requires Extends(s, t) && Extends(t, u)
    ensures Extends(s, u)
  {
  }

  /** A fresh successor's whole visit happens above the node that called it. */
  lemma FreshSuccessor<T(!new)>(
    g: Graph<T>, s0: State<T>, s: State<T>, u: State<T>, gray: set<T>, m: T, done: set<T>, low: nat, dep: T,
    depLow: nat)
    requires Running(g, s0, s, gray, m, done, low)
    requires dep in Succ(g, m) && dep !in s.index
    requires Visited(g, s, u, gray + {m}, dep, depLow)
    ensures Running(g, s0, u, gray, m, done + {dep}, Min(low, depLow))
  {
    hide Reach, Nodes, Succ, LowReached, LowCovers, LowBounds, Sorted, Numbered, NoUnseenEdge, GrayReachesUp;
    hide AllAnchored, AreSccs, ReverseTopological;
    IndexBelowOrder(g, s, m);
    PrefixMembers(s, s0.stack);
    ReachEdge(g, m, dep);
    ChildReached(g, s, u, m, low, dep, depLow);
    ChildCovers(s, u, s0.stack, done, low, dep, depLow);
    ChildBounds(g, s, u, |s0.stack| + 1, s0.stack, low, depLow);
    ExtendsTrans(s0, s, u);
  }

  // ---- leaving a visit ----

  /** With every successor handled, `m` itself has only visited successors. */
  lemma LeaveEdges<T(!new)>(g: Graph<T>, s: State<T>, gray: set<T>, m: T, base: seq<T>, low: nat)
    requires NoUnseenEdge(g, s, gray + {m}) && LowCovers(s, base, Succ(g, m), low)
    ensures NoUnseenEdge(g, s, gray)
  {
  }

  /** Under a low-link below its index, everything that reached `m` still reaches a node under visit. */
  lemma StayAnchored<T(!new)>(g: Graph<T>, s0: State<T>, s: State<T>, gray: set<T>, m: T, low: nat)
    requires AllAnchored(g, s0, gray) && AllAnchored(g, s, gray + {m})
    requires Extends(s0, s) && Sorted(s0) && Sorted(s) && s0.stack + [m] <= s.stack
    requires m in s.index && low < s.index[m] && LowReached(g, s, m, low)
    ensures AllAnchored(g, s, gray)
  {
    hide Reach;
    var w :| w in s.stack && w in s.index && s.index[w] == low && Reach(g, m, w);
    assert w in s0.stack by { BelowIsPrefix(s, s0.stack, m, w); }
    assert Anchored(g, s0, gray, w);
    var a :| a in gray && a in s0.index && w in s0.index && s0.index[a] <= s0.index[w] && Reach(g, w, a);
    ReachTrans(g, m, w, a);
    forall y | y in s.stack ensures Anchored(g, s, gray, y) {
      assert Anchored(g, s, gray + {m}, y);
      var x :| x in gray + {m} && x in s.index && y in s.index && s.index[x] <= s.index[y] && Reach(g, y, x);
      if x == m {
        ReachTrans(g, y, m, a);
      }
    }
  }

  /** A stack node numbered below `m` lies below `m` on the stack. */
  lemma BelowIsPrefix<T(!new)>(s: State<T>, base: seq<T>, m: T, w: T)
    requires Sorted(s) && base + [m] <= s.stack && w in s.stack && m in s.index && s.index[w] < s.index[m]
    ensures w in base
  {
    var k :| 0 <= k < |s.stack| && s.stack[k] == w;
    assert s.stack[|base|] == m;
    if k < |base| {
      assert base[k] == w;
    }
  }

  lemma LeaveReachesUp<T(!new)>(g: Graph<T>, s: State<T>, gray: set<T>, m: T)
    requires GrayReachesUp(g, s, gray + {m})
    ensures GrayReachesUp(g, s, gray)
  {
    hide Reach;
  }

  lemma LeaveBounds<T(!new)>(g: Graph<T>, s: State<T>, base: seq<T>, m: T, low: nat)
    requires LowBounds(g, s, |base| + 1, base, low) && LowCovers(s, base, Succ(g, m), low)
    requires base + [m] <= s.stack
    ensures LowBounds(g, s, |base|, base, low)
  {
    assert s.stack[|base|] == m;
  }

  /** `m` is not the root of its component: it stays on the stack. */
  lemma Stay<T(!new)>(g: Graph<T>, s0: State<T>, s: State<T>, gray: set<T>, m: T, low: nat)
    requires Running(g, s0, s, gray, m, Succ(g, m), low)
    requires low != s.index[m]
    ensures Visited(g, s0, s, gray, m, low)
  {
    hide Reach, Nodes, Succ, LowReached, LowCovers, LowBounds, Sorted, Numbered, NoUnseenEdge, GrayReachesUp;
    hide AllAnchored, AreSccs, ReverseTopological;
    LeaveEdges(g, s, gray, m, s0.stack, low);
    StayAnchored(g, s0, s, gray, m, low);
    LeaveReachesUp(g, s, gray, m);
    LeaveBounds(g, s, s0.stack, m, low);
    assert s.stack[|s0.stack|] == m;
  }

  /** `comp` lists the stack from position `from` up, each node once. */
  ghost predicate Lists<T(!new)>(comp: seq<T>, stack: seq<T>, from: nat) {
    && Distinct(comp) && from < |stack|
    && forall x :: x in comp <==> x in stack[from..]
  }

  /** The state once the segment above `base` has become the component `comp`. */
  function Popped<T>(s: State<T>, base: seq<T>, comp: seq<T>): State<T> {
    s.(stack := base, comps := s.comps + [comp])
  }

  ghost predicate InSegment<T(!new)>(s: State<T>, base: seq<T>, x: T) {
    x in s.stack && x !in base
  }

  /** Where a stack node stands, and whether that is below `|base|`. */
  lemma Position<T(!new)>(s: State<T>, base: seq<T>, x: T) returns (i: nat)
    requires Sorted(s) && base <= s.stack && x in s.stack
    ensures i < |s.stack| && s.stack[i] == x && (x in base <==> i < |base|)
  {
    i :| 0 <= i < |s.stack| && s.stack[i] == x;
    if i < |base| {
      assert base[i] == x;
    }
    if x in base {
      var j :| 0 <= j < |base| && base[j] == x;
      assert s.stack[j] == x;
    }
  }

  lemma SegmentMembers<T(!new)>(s: State<T>, base: seq<T>, comp: seq<T>, m: T)
    requires Sorted(s) && base + [m] <= s.stack && Lists(comp, s.stack, |base|)
    ensures forall x :: x in comp <==> InSegment(s, base, x)
    ensures m in comp && m in s.index
  {
    assert s.stack[|base|] == m && s.stack[|base|..][0] == m;
    forall x ensures x in comp <==> InSegment(s, base, x) {
      if x in comp {
        var k :| 0 <= k < |s.stack[|base|..]| && s.stack[|base|..][k] == x;
        assert s.stack[|base| + k] == x;
      }
      if x in s.stack {
        var i := Position(s, base, x);
        if i >= |base| {
          assert s.stack[|base|..][i - |base|] == x;
        }
      }
    }
  }

  lemma AboveRoot<T(!new)>(s: State<T>, base: seq<T>, m: T, z: T)
    requires Sorted(s) && base + [m] <= s.stack && m in s.index
    requires z in s.stack
    ensures z in base ==> s.index[z] < s.index[m]
    ensures z !in base ==> s.index[m] <= s.index[z]
  {
    assert s.stack[|base|] == m;
    var i := Position(s, base, z);
  }

  lemma RootReaches<T(!new)>(g: Graph<T>, s: State<T>, gray: set<T>, x: T, z: T)
    requires GrayReachesUp(g, s, gray) && x in gray && z in s.stack
    requires x in s.index && z in s.index && s.index[x] <= s.index[z]
    ensures Reach(g, x, z)
  {
  }

  lemma Anchor<T(!new)>(g: Graph<T>, s: State<T>, gray: set<T>, z: T) returns (x: T)
    requires AllAnchored(g, s, gray) && z in s.stack
    ensures x in gray && x in s.index && z in s.index && s.index[x] <= s.index[z] && Reach(g, z, x)
  {
    hide Reach;
    assert Anchored(g, s, gray, z);
    x :| x in gray && x in s.index && z in s.index && s.index[x] <= s.index[z] && Reach(g, z, x);
  }

  /** Every node of the root's segment and the root reach each other. */
  lemma SegmentIsMutual<T(!new)>(g: Graph<T>, s: State<T>, gray: set<T>, base: seq<T>, m: T, z: T)
    requires Sorted(s) && base + [m] <= s.stack && m in s.index
    requires GrayReachesUp(g, s, gray + {m}) && AllAnchored(g, s, gray + {m})
    requires (forall x :: x in gray ==> x in base) && InSegment(s, base, z)
    ensures Mutual(g, m, z)
  {
    hide Reach, AllAnchored, GrayReachesUp;
    AboveRoot(s, base, m, z);
    assert s.stack[|base|] == m;
    RootReaches(g, s, gray + {m}, m, z);
    var x := Anchor(g, s, gray + {m}, z);
    if x != m {
      PrefixMembers(s, base);
      AboveRoot(s, base, m, x);
      RootReaches(g, s, gray + {m}, x, m);
      ReachTrans(g, z, x, m);
    }
  }

  ghost function Above<T(!new)>(s: State<T>, base: seq<T>): set<T> {
    set z | z in s.index && z !in base
  }

  /** The segment and everything emitted form a closed set: no edge leads down below the root. */
  lemma SegmentIsClosed<T(!new)>(g: Graph<T>, s: State<T>, gray: set<T>, base: seq<T>, m: T)
    requires Numbered(g, s) && Sorted(s) && base + [m] <= s.stack && m in s.index
    requires NoUnseenEdge(g, s, gray) && ReverseTopological(g, s.comps)
    requires LowBounds(g, s, |base|, base, s.index[m])
    requires forall x :: x in gray ==> x in base
    ensures Closed(g, Above(s, base))
  {
    hide Nodes, Succ;
    forall z, w | z in s.index && z !in base && w in Succ(g, z) ensures w in s.index && w !in base {
      if Emitted(s.comps, z) {
        EmittedEdge(g, s, z, w);
        PrefixMembers(s, base);
      } else if w in base {
        AboveRoot(s, base, m, z);
        var i := Position(s, base, z);
        PrefixMembers(s, base);
        AboveRoot(s, base, m, w);
      }
    }
  }

  lemma EmittedEdge<T(!new)>(g: Graph<T>, s: State<T>, z: T, w: T)
    requires ReverseTopological(g, s.comps) && Emitted(s.comps, z) && w in Succ(g, z)
    ensures Emitted(s.comps, w)
  {
    hide Succ;
  }

  /** What an emitted node reaches is emitted. */
  lemma EmittedIsClosed<T(!new)>(g: Graph<T>, s: State<T>, x: T, y: T)
    requires Numbered(g, s) && ReverseTopological(g, s.comps)
    requires Emitted(s.comps, x) && Reach(g, x, y)
    ensures Emitted(s.comps, y)
  {
    hide Reach, Nodes;
    var e := set z | z in s.index && Emitted(s.comps, z);
    forall z, w | z in e && w in Succ(g, z) ensures w in e {
      EmittedEdge(g, s, z, w);
    }
    ReachStaysIn(g, e, x, y);
  }

  lemma ComponentIsScc<T(!new)>(g: Graph<T>, s: State<T>, gray: set<T>, base: seq<T>, m: T, comp: seq<T>)
    requires Numbered(g, s) && Sorted(s) && base + [m] <= s.stack && m in s.index
    requires NoUnseenEdge(g, s, gray) && ReverseTopological(g, s.comps)
    requires GrayReachesUp(g, s, gray + {m}) && AllAnchored(g, s, gray + {m})
    requires LowBounds(g, s, |base|, base, s.index[m])
    requires forall x :: x in gray ==> x in base
    requires Lists(comp, s.stack, |base|)
    ensures IsScc(g, comp)
  {
    hide Reach, NoUnseenEdge, AllAnchored, GrayReachesUp, LowBounds;
    SegmentMembers(s, base, comp, m);
    forall x, y | x in comp ensures y in comp <==> Mutual(g, x, y) {
      SegmentIsMutual(g, s, gray, base, m, x);
      if y in comp {
        SegmentIsMutual(g, s, gray, base, m, y);
        ReachTrans(g, x, m, y);
        ReachTrans(g, y, m, x);
      }
      if Mutual(g, x, y) {
        SegmentIsClosed(g, s, gray, base, m);
        ReachStaysIn(g, Above(s, base), x, y);
        if Emitted(s.comps, y) {
          EmittedIsClosed(g, s, y, x);
          assert false;
        }
      }
    }
  }

  lemma PopNumbered<T(!new)>(g: Graph<T>, s: State<T>, base: seq<T>, m: T, comp: seq<T>)
    requires Numbered(g, s) && Sorted(s) && base + [m] <= s.stack && Lists(comp, s.stack, |base|)
    ensures Numbered(g, Popped(s, base, comp)) && Sorted(Popped(s, base, comp))
  {
    SegmentMembers(s, base, comp, m);
    PrefixMembers(s, base);
    hide Lists, Nodes;
    var t := Popped(s, base, comp);
    forall x ensures Emitted(t.comps, x) <==> Emitted(s.comps, x) || x in comp {
      if Emitted(s.comps, x) {
        var i :| 0 <= i < |s.comps| && x in s.comps[i];
        assert t.comps[i] == s.comps[i];
      }
      if x in comp {
        assert x in t.comps[|s.comps|];
      }
    }
  }

  lemma PopSccs<T(!new)>(g: Graph<T>, s: State<T>, base: seq<T>, m: T, comp: seq<T>)
    requires AreSccs(g, s.comps) && IsScc(g, comp)
    requires Numbered(g, s) && Sorted(s) && base + [m] <= s.stack && Lists(comp, s.stack, |base|)
    ensures AreSccs(g, s.comps + [comp])
  {
    SegmentMembers(s, base, comp, m);
    hide IsScc, Lists, Nodes;
    forall x | x in comp ensures forall i :: 0 <= i < |s.comps| ==> x !in s.comps[i] {
      assert !Emitted(s.comps, x);
    }
  }

  lemma PopTopological<T(!new)>(g: Graph<T>, s: State<T>, gray: set<T>, base: seq<T>, m: T, comp: seq<T>)
    requires Numbered(g, s) && Sorted(s) && base + [m] <= s.stack && m in s.index
    requires NoUnseenEdge(g, s, gray) && ReverseTopological(g, s.comps)
    requires LowBounds(g, s, |base|, base, s.index[m])
    requires forall x :: x in gray ==> x in base
    requires Lists(comp, s.stack, |base|)
    ensures ReverseTopological(g, s.comps + [comp])
  {
    SegmentMembers(s, base, comp, m);
    SegmentIsClosed(g, s, gray, base, m);
    hide Lists, Nodes, Succ, NoUnseenEdge, LowBounds, Sorted;
    var comps := s.comps + [comp];
    forall i, x, y | 0 <= i < |comps| && x in comps[i] && y in Succ(g, x)
      ensures exists j :: 0 <= j <= i && y in comps[j]
    {
      if i < |s.comps| {
        assert x in s.comps[i];
        var j :| 0 <= j <= i && y in s.comps[j];
        assert y in comps[j];
      } else {
        assert x in Above(s, base) && y in Above(s, base);
        if Emitted(s.comps, y) {
          var j :| 0 <= j < |s.comps| && y in s.comps[j];
          assert y in comps[j];
        } else {
          assert y in comps[|s.comps|];
        }
      }
    }
  }

  lemma PopAnchored<T(!new)>(g: Graph<T>, s0: State<T>, s: State<T>, gray: set<T>, comp: seq<T>)
    requires AllAnchored(g, s0, gray) && Extends(s0, s)
    ensures AllAnchored(g, Popped(s, s0.stack, comp), gray)
  {
    hide Reach;
    forall y | y in s0.stack ensures Anchored(g, Popped(s, s0.stack, comp), gray, y) {
      assert Anchored(g, s0, gray, y);
    }
  }

  lemma PopReachesUp<T(!new)>(g: Graph<T>, s0: State<T>, s: State<T>, gray: set<T>, comp: seq<T>)
    requires GrayReachesUp(g, s0, gray) && Sorted(s0) && Extends(s0, s)
    ensures GrayReachesUp(g, Popped(s, s0.stack, comp), gray)
  {
    hide Reach;
  }

  lemma PopInv<T(!new)>(g: Graph<T>, s0: State<T>, s: State<T>, gray: set<T>, m: T, low: nat, comp: seq<T>)
    requires m in s.index && low == s.index[m]
    requires Inv(g, s0, gray) && Inv(g, s, gray + {m}) && Extends(s0, s) && s0.stack + [m] <= s.stack
    requires LowCovers(s, s0.stack, Succ(g, m), low)
    requires LowBounds(g, s, |s0.stack|, s0.stack, low)
    requires Lists(comp, s.stack, |s0.stack|)
    ensures Inv(g, Popped(s, s0.stack, comp), gray)
  {
    hide Reach, Nodes, Succ, LowCovers, LowBounds, Sorted, Numbered, NoUnseenEdge, GrayReachesUp;
    hide AllAnchored, AreSccs, ReverseTopological, Lists, IsScc, Extends;
    var base := s0.stack;
    GrayOnStack(g, s0, gray);
    LeaveEdges(g, s, gray, m, base, low);
    ComponentIsScc(g, s, gray, base, m, comp);
    PopNumbered(g, s, base, m, comp);
    PopSccs(g, s, base, m, comp);
    PopTopological(g, s, gray, base, m, comp);
    PopAnchored(g, s0, s, gray, comp);
    PopReachesUp(g, s0, s, gray, comp);
    SameEdges(g, s, Popped(s, base, comp), gray);
  }

  /** `m` is the root of its component: the segment from `m` up is emitted, and the stack is as on entry. */
  lemma Pop<T(!new)>(g: Graph<T>, s0: State<T>, s: State<T>, gray: set<T>, m: T, low: nat, comp: seq<T>)
    requires m in s.index && low == s.index[m]
    requires Running(g, s0, s, gray, m, Succ(g, m), low)
    requires Lists(comp, s.stack, |s0.stack|)
    ensures Visited(g, s0, Popped(s, s0.stack, comp), gray, m, low)
  {
    hide Reach, Nodes, Succ, LowReached, LowCovers, LowBounds, Inv, Lists, Extends;
    PopNotOnStack(g, s0, gray, m);
    LeaveBounds(g, s, s0.stack, m, low);
    PopInv(g, s0, s, gray, m, low, comp);
    PopExtends(s0, s, comp);
    NoBoundsAbove(g, Popped(s, s0.stack, comp), low);
  }

  lemma PopExtends<T(!new)>(s0: State<T>, s: State<T>, comp: seq<T>)
    requires Extends(s0, s)
    ensures Extends(s0, Popped(s, s0.stack, comp))
  {
  }

  lemma PopNotOnStack<T(!new)>(g: Graph<T>, s0: State<T>, gray: set<T>, m: T)
    requires Inv(g, s0, gray) && m !in s0.index
    ensures m !in s0.stack
  {
  }

  lemma GrayOnStack<T(!new)>(g: Graph<T>, s: State<T>, gray: set<T>)
    requires GrayReachesUp(g, s, gray)
    ensures forall x :: x in gray ==> x in s.stack
  {
  }

  lemma SameEdges<T(!new)>(g: Graph<T>, s: State<T>, t: State<T>, gray: set<T>)
    requires NoUnseenEdge(g, s, gray) && s.index == t.index
    ensures NoUnseenEdge(g, t, gray)
  {
  }

  lemma NoBoundsAbove<T(!new)>(g: Graph<T>, t: State<T>, low: nat)
    ensures LowBounds(g, t, |t.stack|, t.stack, low)
  {
  }

  // ---- the algorithm ----

  /** `top` read from its end down to position `from`. */
  ghost predicate IsReversed<T(!new)>(comp: seq<T>, top: seq<T>, from: nat) {
    && from + |comp| == |top|
    && forall k :: 0 <= k < |comp| ==> comp[k] == top[|top| - 1 - k]
  }

  lemma ReversedMembers<T(!new)>(stack: seq<T>, from: nat, comp: seq<T>)
    requires from <= |stack| && IsReversed(comp, stack, from)
    ensures forall x :: x in comp <==> x in stack[from..]
  {
    var seg := stack[from..];
    forall x ensures x in comp <==> x in seg {
      if x in comp {
        var k :| 0 <= k < |comp| && comp[k] == x;
        assert seg[|comp| - 1 - k] == x;
      }
      if x in seg {
        var k :| 0 <= k < |seg| && seg[k] == x;
        assert comp[|comp| - 1 - k] == x;
      }
    }
  }

  lemma ReversedLists<T(!new)>(s: State<T>, base: seq<T>, m: T, comp: seq<T>)
    requires Sorted(s) && base + [m] <= s.stack && IsReversed(comp, s.stack, |base|)
    ensures Lists(comp, s.stack, |base|)
  {
    ReversedMembers(s.stack, |base|, comp);
  }

  class Tarjan<T(==, !new)> {
    const adjacency: Graph<T>
    var index: map<T, nat>
    var low: map<T, nat>
    var stack: seq<T>
    var onStack: set<T>
    var order: nat
    var comps: seq<seq<T>>

    ghost function Now(): State<T>
      reads this
    {
      State(index, stack, order, comps)
    }

    /** The sets and maps the code keeps beside the stack agree with it. */
    ghost predicate Valid()
      reads this
    {
      && onStack == (set x | x in stack)
      && low.Keys == index.Keys
    }

    constructor (adjacency: Graph<T>)
      ensures this.adjacency == adjacency && Valid()
      ensures Now() == State(map[], [], 0, [])
    {
      this.adjacency := adjacency;
      index, low, stack, onStack, order, comps := map[], map[], [], {}, 0, [];
    }

    /** `while True: item = stack.pop(); ...`: the component rooted at `root`, top of the stack first. */
    method PopComponent(root: T, ghost base: seq<T>) returns (comp: seq<T>)
      requires Valid() && base + [root] <= stack && Distinct(stack)
      modifies `stack, `onStack
      ensures Valid() && stack == base
      ensures IsReversed(comp, old(stack), |base|)
    {
      comp := [];
      ghost var top := stack;
      while true
        invariant |base| < |stack| <= |top| && stack == top[..|stack|]
        invariant onStack == set x | x in stack
        invariant IsReversed(comp, top, |stack|)
        decreases |stack|
      {
        var item := stack[|stack| - 1];
        assert stack == stack[..|stack| - 1] + [item];
        stack := stack[..|stack| - 1];
        onStack := onStack - {item};
        comp := comp + [item];
        if item == root {
          assert top[|base|] == root;
          break;
        }
      }
    }

    /** The first lines of `visit`: number the node and push it. */
    method Begin(node: T)
      requires Valid()
      modifies this
      ensures Valid() && Entered(old(Now()), Now(), node)
      ensures low == old(low)[node := old(order)]
    {
      index, low := index[node := order], low[node := order];
      order := order + 1;
      stack := stack + [node];
      onStack := onStack + {node};
    }

    /** The last lines of `visit`: a root emits its component. */
    method Conclude(node: T, ghost s0: State<T>, ghost gray: set<T>)
      requires Valid() && node in low
      requires Running(adjacency, s0, Now(), gray, node, Succ(adjacency, node), low[node])
      modifies `stack, `onStack, `comps
      ensures Valid() && Visited(adjacency, s0, Now(), gray, node, low[node])
    {
      hide Inv, Nodes, Reach, Succ, Running, Visited, Sorted, Distinct, IsReversed, Lists;
      RunningFacts(adjacency, s0, Now(), gray, node, Succ(adjacency, node), low[node]);
      ghost var s := Now();
      if low[node] == index[node] {
        var comp := PopComponent(node, s0.stack);
        ReversedLists(s, s0.stack, node, comp);
        Pop(adjacency, s0, s, gray, node, low[node], comp);
        comps := comps + [comp];
      } else {
        Stay(adjacency, s0, s, gray, node, low[node]);
      }
    }

    method Visit(node: T, ghost gray: set<T>)
      requires Valid() && Inv(adjacency, Now(), gray)
      requires node in Nodes(adjacency) && node !in index
      requires forall x :: x in gray ==> Reach(adjacency, x, node)
      modifies this
      ensures Valid() && node in low && Keeps(old(low), low)
      ensures Visited(adjacency, old(Now()), Now(), gray, node, low[node])
      decreases Nodes(adjacency) - index.Keys
    {
      hide Inv, Nodes, Reach, Succ, Running, Visited, Entered;
      ghost var s0, low0 := Now(), low;
      Begin(node);
      Enter(adjacency, s0, Now(), gray, node);
      var deps := Succ(adjacency, node);
      assert Succ(adjacency, node) - deps == {};
      while deps != {}
        invariant deps <= Succ(adjacency, node)
        invariant Valid() && node in low && Keeps(low0, low)
        invariant Running(adjacency, s0, Now(), gray, node, Succ(adjacency, node) - deps, low[node])
        decreases deps
      {
        ghost var done := Succ(adjacency, node) - deps;
        var dep :| dep in deps;
        deps := deps - {dep};
        assert Succ(adjacency, node) - deps == done + {dep};
        ghost var s, lowS := Now(), low;
        if dep !in index {
          BeforeChild(adjacency, s0, s, gray, node, done, low[node], dep);
          Visit(dep, gray + {node});
          FreshSuccessor(adjacency, s0, s, Now(), gray, node, done, lowS[node], dep, low[dep]);
          low := low[node := Min(low[node], low[dep])];
        } else {
          KnownSuccessor(adjacency, s0, s, gray, node, done, low[node], dep);
          if dep in onStack {
            low := low[node := Min(low[node], index[dep])];
          }
        }
      }
      assert Succ(adjacency, node) - deps == Succ(adjacency, node);
      Conclude(node, s0, gray);
    }
  }

  lemma RunningFacts<T(!new)>(g: Graph<T>, s0: State<T>, s: State<T>, gray: set<T>, m: T, done: set<T>, low: nat)
    requires Running(g, s0, s, gray, m, done, low)
    ensures m in s.index && s0.stack + [m] <= s.stack && Sorted(s) && Distinct(s.stack)
  {
    hide Reach, Nodes;
    DistinctStack(s);
  }

  lemma DistinctStack<T(!new)>(s: State<T>)
    requires Sorted(s)
    ensures Distinct(s.stack)
  {
  }

  lemma BeforeChild<T(!new)>(
    g: Graph<T>, s0: State<T>, s: State<T>, gray: set<T>, m: T, done: set<T>, low: nat, dep: T)
    requires Running(g, s0, s, gray, m, done, low)
    requires forall x :: x in gray ==> Reach(g, x, m)
    requires dep in Succ(g, m)
    ensures Inv(g, s, gray + {m}) && dep in Nodes(g)
    ensures forall x :: x in gray + {m} ==> Reach(g, x, dep)
    ensures Nodes(g) - s.index.Keys < Nodes(g) - s0.index.Keys
  {
    assert dep in Nodes(g);
    hide Inv, Reach, Nodes, Succ;
    ReachEdge(g, m, dep);
    forall x | x in gray ensures Reach(g, x, dep) {
      ReachTrans(g, x, m, dep);
    }
    assert s0.index.Keys <= s.index.Keys;
    assert m in Nodes(g) - s0.index.Keys;
  }

  lemma NothingVisited<T(!new)>(g: Graph<T>)
    ensures Inv(g, State(map[], [], 0, []), {})
  {
  }

  /** With no visit under way the stack is empty, so the emitted components are everything visited. */
  lemma AllVisited<T(!new)>(g: Graph<T>, s: State<T>)
    requires Inv(g, s, {}) && g.Keys <= s.index.Keys
    ensures IsSccList(g, s.comps)
  {
    hide AreSccs, ReverseTopological, Reach;
    StackNeedsGray(g, s, {});
    forall x ensures x in Nodes(g) <==> Emitted(s.comps, x) {
      if x in Nodes(g) && x !in g.Keys {
        var y :| y in g && x in g[y];
        assert x in Succ(g, y);
      }
    }
  }

  lemma StackNeedsGray<T(!new)>(g: Graph<T>, s: State<T>, gray: set<T>)
    requires AllAnchored(g, s, gray)
    ensures s.stack == [] || gray != {}
  {
    hide Reach;
    if s.stack != [] {
      assert Anchored(g, s, gray, s.stack[0]);
    }
  }

  /** The components of a collapsed import graph, whatever order the keys and the successors come in. */
  method PackageSccs<T(==, !new)>(adjacency: Graph<T>) returns (comps: seq<seq<T>>)
    ensures IsSccList(adjacency, comps)
  {
    hide Inv, Nodes, Reach, IsSccList;
    var tarjan := new Tarjan(adjacency);
    NothingVisited(adjacency);
    var pending := adjacency.Keys;
    while pending != {}
      invariant fresh(tarjan) && tarjan.adjacency == adjacency
      invariant tarjan.Valid() && Inv(adjacency, tarjan.Now(), {})
      invariant pending <= adjacency.Keys && adjacency.Keys - pending <= tarjan.index.Keys
      decreases pending
    {
      var m :| m in pending;
      pending := pending - {m};
      if m !in tarjan.index {
        KeysAreNodes(adjacency, m);
        tarjan.Visit(m, {});
      }
    }
    AllVisited(adjacency, tarjan.Now());
    comps := tarjan.comps;
  }

  lemma KeysAreNodes<T(!new)>(g: Graph<T>, x: T)
    requires x in g
    ensures x in Nodes(g)
  {
  }
}
