/** `import_closure`: the worklist that finds every module the entry points load. */
module ModuleClosure {
  import opened Graphs

  /** A module as its dotted parts; its proper non-empty prefixes are its ancestor packages. */
  type Module = seq<string>

  ghost predicate IsAncestor(a: Module, m: Module) {
    0 < |a| < |m| && a <= m
  }

  /** Loading `m` loads `n`: an import edge, or the `__init__` of an ancestor package. */
  ghost predicate Loads(graph: Graph<Module>, m: Module, n: Module) {
    n in Succ(graph, m) || IsAncestor(n, m)
  }

  ghost predicate IsRoot(known: set<Module>, entries: seq<Module>, m: Module) {
    m in entries && m in known
  }

  ghost predicate IsLoadClosed(known: set<Module>, graph: Graph<Module>, entries: seq<Module>, s: set<Module>) {
    && (forall m :: IsRoot(known, entries, m) ==> m in s)
    && (forall m, n :: m in s && Loads(graph, m, n) ==> n in s)
  }

  /** The specification: the least set with the real entry points that is closed under loading. */
  ghost predicate IsClosure(known: set<Module>, graph: Graph<Module>, entries: seq<Module>, r: set<Module>) {
    && IsLoadClosed(known, graph, entries, r)
    && forall s :: IsLoadClosed(known, graph, entries, s) ==> r <= s
  }

  /** `unvisited_ancestors` from the prefix of length `i` on. */
  function UnvisitedAncestors(m: Module, reached: set<Module>, i: nat := 1): (r: seq<Module>)
    requires i >= 1
    ensures forall a :: a in r <==> IsAncestor(a, m) && |a| >= i && a !in reached
    decreases |m| - i
  {
    if i >= |m| then []
    else
      assert forall a: Module :: IsAncestor(a, m) && |a| >= i ==> a == m[..i] || |a| >= i + 1;
      (if m[..i] in reached then [] else [m[..i]]) + UnvisitedAncestors(m, reached, i + 1)
  }

  /** Everything the worklist can ever hold: entries, targets, and their prefixes. */
  ghost function Universe(graph: Graph<Module>, entries: seq<Module>): set<Module> {
    var base := (set m | m in entries) + Nodes(graph);
    set m, i | m in base && 0 <= i <= |m| :: m[..i]
  }

  lemma InUniverse(graph: Graph<Module>, entries: seq<Module>, m: Module)
    ensures m in entries || m in Nodes(graph) ==> m in Universe(graph, entries)
    ensures forall n :: m in Universe(graph, entries) && Loads(graph, m, n) ==> n in Universe(graph, entries)
  {
    var base := (set m | m in entries) + Nodes(graph);
    assert m == m[..|m|];
    forall n | m in Universe(graph, entries) && Loads(graph, m, n) ensures n in Universe(graph, entries) {
      if n in Succ(graph, m) {
        assert n in Nodes(graph) && n == n[..|n|];
      } else {
        var b, i :| b in base && 0 <= i <= |b| && m == b[..i];
        assert n == m[..|n|] == b[..|n|];
      }
    }
  }

  /** A set's elements in some order. */
  method Listed(s: set<Module>) returns (r: seq<Module>)
    ensures forall m :: m in r <==> m in s
  {
    r := [];
    var rest := s;
    while rest != {}
      invariant rest <= s && forall m :: m in r <==> m in s - rest
      decreases rest
    {
      var m :| m in rest;
      rest := rest - {m};
      r := r + [m];
    }
  }

  /** What is reached or waiting: contains the roots, is closed up to the queue, and lies in every closed set. */
  ghost predicate Inv(
    known: set<Module>, graph: Graph<Module>, entries: seq<Module>, reached: set<Module>, queue: seq<Module>)
  {
    && (forall m :: IsRoot(known, entries, m) ==> m in reached || m in queue)
    && (forall m, n :: m in reached && Loads(graph, m, n) ==> n in reached || n in queue)
    && (forall s, m :: IsLoadClosed(known, graph, entries, s) && (m in reached || m in queue) ==> m in s)
    && (forall m :: m in reached || m in queue ==> m in Universe(graph, entries))
  }

  /** The entry points that are modules. */
  method RealEntries(known: set<Module>, entries: seq<Module>) returns (queue: seq<Module>)
    ensures forall m :: m in queue <==> IsRoot(known, entries, m)
  {
    queue := [];
    for i := 0 to |entries|
      invariant forall m :: m in queue <==> IsRoot(known, entries[..i], m)
    {
      assert entries[..i + 1] == entries[..i] + [entries[i]];
      if entries[i] in known {
        queue := queue + [entries[i]];
      }
    }
    assert entries[..|entries|] == entries;
  }

  /** What one step of the loop adds to the queue: the unvisited ancestors, then the import targets. */
  method NextModules(graph: Graph<Module>, m: Module, reached: set<Module>) returns (extra: seq<Module>)
    ensures forall n :: n in extra ==> Loads(graph, m, n)
    ensures forall n :: Loads(graph, m, n) ==> n in extra || n in reached
  {
    var deps := Listed(Succ(graph, m));
    extra := UnvisitedAncestors(m, reached) + deps;
  }

  method ImportClosure(known: set<Module>, graph: Graph<Module>, entries: seq<Module>) returns (reached: set<Module>)
    ensures IsClosure(known, graph, entries, reached)
  {
    hide Inv, Universe, IsClosure, Loads, IsRoot;
    reached := {};
    var queue := RealEntries(known, entries);
    Start(known, graph, entries, queue);
    while queue != []
      invariant Inv(known, graph, entries, reached, queue)
      decreases Universe(graph, entries) - reached, |queue|
    {
      var node, rest := queue[|queue| - 1], queue[..|queue| - 1];
      assert queue == rest + [node];
      queue := rest;
      if node in reached {
        Skip(known, graph, entries, reached, queue, node);
        continue;
      }
      var extra := NextModules(graph, node, reached + {node});
      Expand(known, graph, entries, reached, queue, node, extra);
      reached := reached + {node};
      queue := queue + extra;
    }
    Done(known, graph, entries, reached);
  }

  lemma Start(known: set<Module>, graph: Graph<Module>, entries: seq<Module>, queue: seq<Module>)
    requires forall m :: m in queue <==> IsRoot(known, entries, m)
    ensures Inv(known, graph, entries, {}, queue)
  {
    hide Universe, Loads;
    forall m | m in queue ensures m in Universe(graph, entries) {
      InUniverse(graph, entries, m);
    }
  }

  lemma Skip(
    known: set<Module>, graph: Graph<Module>, entries: seq<Module>,
    reached: set<Module>, queue: seq<Module>, m: Module)
    requires Inv(known, graph, entries, reached, queue + [m]) && m in reached
    ensures Inv(known, graph, entries, reached, queue)
  {
    hide Universe, Loads, IsRoot, IsLoadClosed;
  }

  lemma Done(known: set<Module>, graph: Graph<Module>, entries: seq<Module>, reached: set<Module>)
    requires Inv(known, graph, entries, reached, [])
    ensures IsClosure(known, graph, entries, reached)
  {
    hide Universe, Loads, IsRoot;
  }

  lemma Expand(
    known: set<Module>, graph: Graph<Module>, entries: seq<Module>,
    reached: set<Module>, queue: seq<Module>, m: Module, extra: seq<Module>)
    requires Inv(known, graph, entries, reached, queue + [m])
    requires forall n :: n in extra ==> Loads(graph, m, n)
    requires forall n :: Loads(graph, m, n) ==> n in extra || n in reached + {m}
    ensures Inv(known, graph, entries, reached + {m}, queue + extra)
    ensures m in Universe(graph, entries)
  {
    hide Universe, Loads;
    assert m in queue + [m];
    InUniverse(graph, entries, m);
  }

  /** The graph whose edges are exactly "loading one module loads another", over everything the worklist can hold. */
  ghost function LoadGraph(graph: Graph<Module>, entries: seq<Module>): Graph<Module> {
    var u := Universe(graph, entries);
    map m | m in u :: set n | n in u && Loads(graph, m, n)
  }

  /** The closure holds a module exactly when a chain of loads leads to it from a real entry point. */
  lemma ClosureIsReachability(
    known: set<Module>, graph: Graph<Module>, entries: seq<Module>, reached: set<Module>, m: Module)
    requires IsClosure(known, graph, entries, reached)
    ensures m in reached <==> exists e :: IsRoot(known, entries, e) && Reach(LoadGraph(graph, entries), e, m)
  {
    hide Universe, Loads, Reach;
    var u, g := Universe(graph, entries), LoadGraph(graph, entries);
    forall x, y | x in u && Loads(graph, x, y) ensures y in Succ(g, x) {
      InUniverse(graph, entries, x);
    }
    forall e | IsRoot(known, entries, e) ensures e in u && Reach(g, e, e) {
      InUniverse(graph, entries, e);
      ReachRefl(g, e);
    }
    var s := set x | x in u && exists e :: IsRoot(known, entries, e) && Reach(g, e, x);
    forall x, y | x in s && Loads(graph, x, y) ensures y in s {
      InUniverse(graph, entries, x);
      var e :| IsRoot(known, entries, e) && Reach(g, e, x);
      ReachEdge(g, x, y);
      ReachTrans(g, e, x, y);
    }
    assert IsLoadClosed(known, graph, entries, s);
    if e :| IsRoot(known, entries, e) && Reach(g, e, m) {
      assert Closed(g, reached);
      ReachStaysIn(g, reached, e, m);
    }
  }
}
