/** The cycle and rank gates over the package graph, and what a green run of them rules out. */
module PackageGates {
  import opened Wrappers
  import opened Graphs
  import opened Sccs
  import opened Sequences

  /** Either package is configured to import the other. */
  predicate IsExempt<T(==, !new)>(config: map<T, seq<T>>, a: T, b: T) {
    (a in config && b in config[a]) || (b in config && a in config[b])
  }

  /** `exempt_pairs`: every configured `(src, dst)` as an unordered pair, a package and itself as a singleton. */
  function ExemptPairs<T(==, !new)>(config: map<T, seq<T>>): set<set<T>> {
    set src, dst | src in config && dst in config[src] :: {src, dst}
  }

  datatype Violation<T> =
    | UnexemptedCycle(comp: seq<T>, pairs: seq<(T, T)>)
    | StaleExemption(pair: set<T>)

  /** Unpacking an exemption of other than two members into `a, b` raises. */
  datatype GateError = ValueError

  // ---- check_cycles ----

  /** The members of `rest` that carry no exemption with `a`. */
  function UnexemptedWith<T(==, !new)>(a: T, rest: seq<T>, exempt: set<set<T>>): (pairs: seq<(T, T)>)
    ensures forall p :: p in pairs <==> p.0 == a && p.1 in rest && {p.0, p.1} !in exempt
  {
    if rest == [] then []
    else (if {a, rest[0]} in exempt then [] else [(a, rest[0])]) + UnexemptedWith(a, rest[1..], exempt)
  }

  /** `unexempted_pairs`: the pairs of one component, in its order, that carry no exemption. */
  function UnexemptedPairs<T(==, !new)>(comp: seq<T>, exempt: set<set<T>>): (pairs: seq<(T, T)>) {
    if comp == [] then [] else UnexemptedWith(comp[0], comp[1..], exempt) + UnexemptedPairs(comp[1..], exempt)
  }

  /** Two members of a component, in one order or the other. */
  ghost predicate Lists2<T(!new)>(pairs: seq<(T, T)>, a: T, b: T) {
    (a, b) in pairs || (b, a) in pairs
  }

  lemma {:induction false} UnexemptedPairsAreAll<T(!new)>(comp: seq<T>, exempt: set<set<T>>, a: T, b: T)
    requires Distinct(comp)
    ensures Lists2(UnexemptedPairs(comp, exempt), a, b) <==> a in comp && b in comp && a != b && {a, b} !in exempt
  {
    if comp != [] {
      var rest := comp[1..];
      assert Distinct(rest) by {
        assert forall i :: 0 <= i < |rest| ==> rest[i] == comp[i + 1];
      }
      assert comp == [comp[0]] + rest;
      assert comp[0] !in rest by {
        assert forall i :: 0 <= i < |rest| ==> rest[i] == comp[i + 1];
      }
      UnexemptedPairsAreAll(rest, exempt, a, b);
      assert {a, b} == {b, a};
    }
  }

  /** The violation a component owes, if any. */
  ghost predicate OwesCycle<T(!new)>(comps: seq<seq<T>>, exempt: set<set<T>>, v: Violation<T>) {
    && v.UnexemptedCycle? && v.comp in comps
    && v.pairs == UnexemptedPairs(v.comp, exempt) && v.pairs != []
  }

  method UnexemptedCyclePairs<T(==, !new)>(comps: seq<seq<T>>, exempt: set<set<T>>)
    returns (violations: seq<Violation<T>>)
    ensures forall v :: v in violations <==> OwesCycle(comps, exempt, v)
  {
    violations := [];
    for i := 0 to |comps|
      invariant forall v :: v in violations <==> OwesCycle(comps[..i], exempt, v)
    {
      assert comps[..i + 1] == comps[..i] + [comps[i]];
      if |comps[i]| < 2 {
        assert |comps[i]| == 1 ==> UnexemptedPairs(comps[i][1..], exempt) == [];
        continue;
      }
      var unexempt := UnexemptedPairs(comps[i], exempt);
      if unexempt != [] {
        violations := violations + [UnexemptedCycle(comps[i], unexempt)];
      }
    }
    assert comps[..|comps|] == comps;
  }

  ghost predicate BothWays<T(!new)>(g: Graph<T>, pair: set<T>) {
    forall a, b :: a in pair && b in pair && a != b ==> b in Succ(g, a)
  }

  lemma TwoMembers<T(!new)>(pair: set<T>, a: T)
    requires |pair| == 2 && a in pair
    ensures exists b :: b in pair - {a} && pair == {a, b}
  {
    var rest := pair - {a};
    assert |rest| == 1;
    var b :| b in rest;
    assert |rest - {b}| == 0;
    assert pair == {a, b};
  }

  method StaleExemptions<T(==, !new)>(g: Graph<T>, exempt: set<set<T>>)
    returns (r: Result<seq<Violation<T>>, GateError>)
    ensures r.Err? <==> exists pair :: pair in exempt && |pair| != 2
    ensures r.Ok? ==> forall v :: v in r.value <==> v.StaleExemption? && v.pair in exempt && !BothWays(g, v.pair)
  {
    var violations: seq<Violation<T>> := [];
    var pending := exempt;
    while pending != {}
      invariant pending <= exempt
      invariant forall pair :: pair in exempt - pending ==> |pair| == 2
      invariant forall v :: v in violations <==> v.StaleExemption? && v.pair in exempt - pending && !BothWays(g, v.pair)
      decreases pending
    {
      var pair :| pair in pending;
      pending := pending - {pair};
      if |pair| != 2 {
        return Err(ValueError);
      }
      var a :| a in pair;
      TwoMembers(pair, a);
      var b :| b in pair - {a};
      assert pair == {a, b};
      if !(b in Succ(g, a) && a in Succ(g, b)) {
        violations := violations + [StaleExemption(pair)];
      }
    }
    r := Ok(violations);
  }

  /** Two packages that import each other through some cycle without an exemption. */
  ghost predicate Unexempted<T(!new)>(g: Graph<T>, exempt: set<set<T>>, a: T, b: T) {
    a != b && Mutual(g, a, b) && {a, b} !in exempt
  }

  /** What a green cycle gate certifies. */
  ghost predicate CyclesGreen<T(!new)>(g: Graph<T>, exempt: set<set<T>>) {
    && (forall a, b :: !Unexempted(g, exempt, a, b))
    && (forall pair :: pair in exempt ==> BothWays(g, pair))
  }

  ghost predicate Named<T(!new)>(vs: seq<Violation<T>>, a: T, b: T) {
    exists v :: v in vs && v.UnexemptedCycle? && Lists2(v.pairs, a, b)
  }

  /** The pairs two lists of violations name are exactly the offending ones. */
  ghost predicate NamesOffenders<T(!new)>(g: Graph<T>, exempt: set<set<T>>, vs: seq<Violation<T>>) {
    && (forall a, b :: Unexempted(g, exempt, a, b) <==> Named(vs, a, b))
    && (forall pair :: pair in exempt && !BothWays(g, pair) <==> StaleExemption(pair) in vs)
  }

  lemma OwedCyclesNameOffenders<T(!new)>(
    g: Graph<T>, comps: seq<seq<T>>, exempt: set<set<T>>, vs: seq<Violation<T>>, a: T, b: T)
    requires IsSccList(g, comps)
    requires forall v :: v in vs && v.UnexemptedCycle? <==> OwesCycle(comps, exempt, v)
    ensures Unexempted(g, exempt, a, b) <==> Named(vs, a, b)
  {
    if Unexempted(g, exempt, a, b) {
      MutualAreTogether(g, comps, a, b);
      var i :| 0 <= i < |comps| && a in comps[i] && b in comps[i];
      UnexemptedPairsAreAll(comps[i], exempt, a, b);
      var v := UnexemptedCycle(comps[i], UnexemptedPairs(comps[i], exempt));
      assert OwesCycle(comps, exempt, v);
    }
    if v :| v in vs && v.UnexemptedCycle? && Lists2(v.pairs, a, b) {
      assert OwesCycle(comps, exempt, v);
      var i :| 0 <= i < |comps| && comps[i] == v.comp;
      assert IsScc(g, comps[i]);
      UnexemptedPairsAreAll(v.comp, exempt, a, b);
    }
  }

  lemma MutualAreTogether<T(!new)>(g: Graph<T>, comps: seq<seq<T>>, a: T, b: T)
    requires IsSccList(g, comps) && a != b && Mutual(g, a, b)
    ensures exists i :: 0 <= i < |comps| && a in comps[i] && b in comps[i]
  {
    ReachedIsNode(g, b, a);
    assert Emitted(comps, a);
    var i :| 0 <= i < |comps| && a in comps[i];
    assert IsScc(g, comps[i]);
  }

  lemma ReachedIsNode<T(!new)>(g: Graph<T>, x: T, y: T)
    requires Reach(g, x, y) && x != y
    ensures y in Nodes(g)
  {
    var p :| IsPath(g, p) && p[0] == x && p[|p| - 1] == y;
    assert y in Succ(g, p[|p| - 2]);
  }

  /** The two lists together name exactly the offenders, so they are empty exactly when there is none. */
  lemma Verdict<T(!new)>(
    g: Graph<T>, comps: seq<seq<T>>, exempt: set<set<T>>, cycles: seq<Violation<T>>, stale: seq<Violation<T>>)
    requires IsSccList(g, comps)
    requires forall v :: v in cycles <==> OwesCycle(comps, exempt, v)
    requires forall v :: v in stale <==> v.StaleExemption? && v.pair in exempt && !BothWays(g, v.pair)
    ensures NamesOffenders(g, exempt, cycles + stale)
    ensures cycles + stale == [] <==> CyclesGreen(g, exempt)
  {
    hide IsSccList, Unexempted, BothWays;
    var vs := cycles + stale;
    forall a, b
      ensures Unexempted(g, exempt, a, b) <==> Named(vs, a, b)
    {
      OwedCyclesNameOffenders(g, comps, exempt, vs, a, b);
    }
    if vs != [] {
      var v := vs[0];
      if v.UnexemptedCycle? {
        assert v in vs && OwesCycle(comps, exempt, v);
        assert v.pairs[0] in v.pairs && Lists2(v.pairs, v.pairs[0].0, v.pairs[0].1);
        assert Unexempted(g, exempt, v.pairs[0].0, v.pairs[0].1);
      }
    }
  }

  ghost predicate MeetBothWays<T(!new)>(g: Graph<T>, a: T, b: T) {
    b in Succ(g, a) && a in Succ(g, b)
  }

  /** The violations are the offenders, as the configuration has them: the pairs of packages on a cycle that neither
      direction exempts, and the configured pairs that do not import both ways. */
  ghost predicate NamesConfigured<T(!new)>(g: Graph<T>, config: map<T, seq<T>>, vs: seq<Violation<T>>) {
    && (forall a, b :: Named(vs, a, b) <==> a != b && Mutual(g, a, b) && !IsExempt(config, a, b))
    && (forall a, b :: a in config && b in config[a] ==>
          (StaleExemption({a, b}) in vs <==> !MeetBothWays(g, a, b)))
  }

  /** Every two packages on a cycle are configured in one direction or the other, and every configured pair imports both
      ways. */
  ghost predicate ConfigIsMet<T(!new)>(g: Graph<T>, config: map<T, seq<T>>) {
    && (forall a, b :: a != b && Mutual(g, a, b) ==> IsExempt(config, a, b))
    && (forall a, b :: a in config && b in config[a] ==> MeetBothWays(g, a, b))
  }

  lemma ExemptIff<T(!new)>(config: map<T, seq<T>>)
    ensures forall a, b :: {a, b} in ExemptPairs(config) <==> IsExempt(config, a, b)
  {
    forall a, b ensures {a, b} in ExemptPairs(config) <==> IsExempt(config, a, b) {
      if {a, b} in ExemptPairs(config) {
        var src, dst :| src in config && dst in config[src] && {a, b} == {src, dst};
        assert a in {src, dst} && b in {src, dst} && src in {a, b} && dst in {a, b};
      }
      if IsExempt(config, a, b) {
        assert {a, b} == {b, a};
      }
    }
  }

  lemma PairBothWays<T(!new)>(g: Graph<T>, a: T, b: T)
    requires a != b
    ensures BothWays(g, {a, b}) <==> MeetBothWays(g, a, b)
  {
    assert a in {a, b} && b in {a, b};
  }

  /** What the pairs say is what the configuration says, when it exempts no package with itself. */
  lemma InConfigTerms<T(!new)>(g: Graph<T>, config: map<T, seq<T>>, vs: seq<Violation<T>>)
    requires !exists p :: p in config && p in config[p]
    requires NamesOffenders(g, ExemptPairs(config), vs)
    ensures NamesConfigured(g, config, vs)
    ensures CyclesGreen(g, ExemptPairs(config)) <==> ConfigIsMet(g, config)
  {
    ExemptIff(config);
    hide Mutual, ExemptPairs, BothWays, IsExempt, MeetBothWays, Named;
    var exempt := ExemptPairs(config);
    forall a, b ensures Unexempted(g, exempt, a, b) <==> a != b && Mutual(g, a, b) && !IsExempt(config, a, b) {
      assert {a, b} in exempt <==> IsExempt(config, a, b);
    }
    forall a, b | a in config && b in config[a]
      ensures StaleExemption({a, b}) in vs <==> !MeetBothWays(g, a, b)
    {
      Configured(config, a, b);
      PairBothWays(g, a, b);
    }
    ConfiguredBothWays(g, config);
  }

  lemma ConfiguredBothWays<T(!new)>(g: Graph<T>, config: map<T, seq<T>>)
    requires !exists p :: p in config && p in config[p]
    ensures (forall pair :: pair in ExemptPairs(config) ==> BothWays(g, pair))
       <==> forall a, b :: a in config && b in config[a] ==> MeetBothWays(g, a, b)
  {
    hide ExemptPairs, BothWays, MeetBothWays;
    if forall pair :: pair in ExemptPairs(config) ==> BothWays(g, pair) {
      forall a, b | a in config && b in config[a] ensures MeetBothWays(g, a, b) {
        Configured(config, a, b);
        PairBothWays(g, a, b);
      }
    }
    if forall a, b :: a in config && b in config[a] ==> MeetBothWays(g, a, b) {
      forall pair | pair in ExemptPairs(config) ensures BothWays(g, pair) {
        OfConfig(config, pair);
        var a, b :| a in config && b in config[a] && pair == {a, b};
        PairBothWays(g, a, b);
      }
    }
  }

  lemma Configured<T(!new)>(config: map<T, seq<T>>, a: T, b: T)
    requires a in config && b in config[a]
    ensures {a, b} in ExemptPairs(config)
  {
  }

  lemma OfConfig<T(!new)>(config: map<T, seq<T>>, pair: set<T>)
    requires pair in ExemptPairs(config)
    ensures exists a, b :: a in config && b in config[a] && pair == {a, b}
  {
  }

  /** `check_cycles`. A configured exemption of a package with itself makes the gate raise instead of answer. */
  method CheckCycles<T(==, !new)>(adjacency: Graph<T>, config: map<T, seq<T>>)
    returns (r: Result<seq<Violation<T>>, GateError>)
    ensures r.Err? <==> exists p :: p in config && p in config[p]
    ensures r.Ok? ==> NamesConfigured(adjacency, config, r.value)
    ensures r.Ok? ==> (r.value == [] <==> ConfigIsMet(adjacency, config))
    ensures r.Ok? ==> (r.value == [] <==> CyclesGreen(adjacency, ExemptPairs(config)))
  {
    hide IsSccList, Mutual, OwesCycle, NamesOffenders, CyclesGreen, ExemptPairs, BothWays, NamesConfigured, ConfigIsMet;
    var exempt := ExemptPairs(config);
    var comps := PackageSccs(adjacency);
    var cycles := UnexemptedCyclePairs(comps, exempt);
    var stale := StaleExemptions(adjacency, exempt);
    ExemptionSizes(config);
    if stale.Err? {
      return stale;
    }
    Verdict(adjacency, comps, exempt, cycles, stale.value);
    InConfigTerms(adjacency, config, cycles + stale.value);
    r := Ok(cycles + stale.value);
  }

  lemma ExemptionSizes<T(!new)>(config: map<T, seq<T>>)
    ensures (exists pair :: pair in ExemptPairs(config) && |pair| != 2) <==> exists p :: p in config && p in config[p]
  {
    if pair :| pair in ExemptPairs(config) && |pair| != 2 {
      var src, dst :| src in config && dst in config[src] && pair == {src, dst};
      assert src == dst;
    }
    if p :| p in config && p in config[p] {
      assert {p, p} in ExemptPairs(config);
      assert {p, p} == {p};
    }
  }

  // ---- check_ranks ----

  datatype RankIssue<T> =
    | MissingRank(src: T, dst: T, missing: T)
    | RunsUp(src: T, dst: T, from: int, to: int)
    | StaleRank(pkg: T)

  /** `missing_rank`: the first unranked end of an edge. */
  function MissingRankOf<T(==)>(ranks: map<T, int>, src: T, dst: T): Option<RankIssue<T>> {
    if src in ranks && dst in ranks then None
    else Some(MissingRank(src, dst, if src !in ranks then src else dst))
  }

  function RankViolation<T(==, !new)>(ranks: map<T, int>, exempt: set<set<T>>, src: T, dst: T):
    (r: Option<RankIssue<T>>)
    ensures r.None? <==> {src, dst} in exempt || (src in ranks && dst in ranks && ranks[src] > ranks[dst])
    ensures r.Some? ==> match r.value
      case MissingRank(a, b, missing) =>
        (a, b) == (src, dst) && missing !in ranks && (missing == src || (missing == dst && src in ranks))
      case RunsUp(a, b, from, to) =>
        (a, b) == (src, dst) && src in ranks && dst in ranks && from == ranks[src] <= ranks[dst] == to
      case StaleRank(_) => false
  {
    if {src, dst} in exempt then None
    else if MissingRankOf(ranks, src, dst).Some? then MissingRankOf(ranks, src, dst)
    else if ranks[src] <= ranks[dst] then Some(RunsUp(src, dst, ranks[src], ranks[dst]))
    else None
  }

  /** What a green rank gate certifies: every unexempted edge goes strictly down, and every ranked package exists. */
  ghost predicate RanksGreen<T(!new)>(edges: seq<(T, T)>, ranks: map<T, int>, exempt: set<set<T>>, existing: set<T>) {
    && (forall e :: e in edges ==> {e.0, e.1} in exempt || (e.0 in ranks && e.1 in ranks && ranks[e.0] > ranks[e.1]))
    && ranks.Keys <= existing
  }

  /** The issues of the edges and ranks: an edge that neither direction of the configuration exempts and that lacks a
      rank or does not fall, and a rank of a package that is not there. */
  ghost predicate OwesIssue<T(!new)>(
    edges: seq<(T, T)>, ranks: map<T, int>, config: map<T, seq<T>>, existing: set<T>, v: RankIssue<T>)
  {
    match v
    case MissingRank(a, b, missing) =>
      && (a, b) in edges && !IsExempt(config, a, b) && missing !in ranks
      && (missing == a || (missing == b && a in ranks))
    case RunsUp(a, b, from, to) =>
      && (a, b) in edges && !IsExempt(config, a, b)
      && a in ranks && b in ranks && from == ranks[a] <= ranks[b] == to
    case StaleRank(pkg) => pkg in ranks && pkg !in existing
  }

  lemma IssueOfEdge<T(!new)>(
    edges: seq<(T, T)>, ranks: map<T, int>, config: map<T, seq<T>>, existing: set<T>, v: RankIssue<T>)
    ensures OwesIssue(edges, ranks, config, existing, v) <==>
      || (v.StaleRank? && v.pkg in ranks && v.pkg !in existing)
      || (exists e :: e in edges && RankViolation(ranks, ExemptPairs(config), e.0, e.1) == Some(v))
  {
    ExemptIff(config);
    hide ExemptPairs, IsExempt;
    if OwesIssue(edges, ranks, config, existing, v) && !v.StaleRank? {
      assert RankViolation(ranks, ExemptPairs(config), (v.src, v.dst).0, (v.src, v.dst).1) == Some(v);
    }
  }

  lemma GreenByConfig<T(!new)>(edges: seq<(T, T)>, ranks: map<T, int>, config: map<T, seq<T>>, existing: set<T>)
    ensures RanksGreen(edges, ranks, ExemptPairs(config), existing) <==>
      && (forall e :: e in edges ==>
            IsExempt(config, e.0, e.1) || (e.0 in ranks && e.1 in ranks && ranks[e.0] > ranks[e.1]))
      && ranks.Keys <= existing
  {
    ExemptIff(config);
    hide ExemptPairs, IsExempt;
  }

  /** `check_ranks` over the cross-package pairs, in the order they were counted. */
  method CheckRanks<T(==, !new)>(edges: seq<(T, T)>, ranks: map<T, int>, config: map<T, seq<T>>, existing: set<T>)
    returns (issues: seq<RankIssue<T>>)
    ensures forall v :: v in issues <==> OwesIssue(edges, ranks, config, existing, v)
    ensures issues == [] <==>
      && (forall e :: e in edges ==>
            IsExempt(config, e.0, e.1) || (e.0 in ranks && e.1 in ranks && ranks[e.0] > ranks[e.1]))
      && ranks.Keys <= existing
    ensures issues == [] <==> RanksGreen(edges, ranks, ExemptPairs(config), existing)
  {
    hide ExemptPairs, RankViolation, OwesIssue, IsExempt;
    issues := [];
    var exempt := ExemptPairs(config);
    for i := 0 to |edges|
      invariant forall v ::
        (v in issues <==> exists e :: e in edges[..i] && RankViolation(ranks, exempt, e.0, e.1) == Some(v))
      invariant issues == [] ==> forall e :: e in edges[..i] ==> RankViolation(ranks, exempt, e.0, e.1).None?
    {
      var (src, dst) := edges[i];
      assert edges[..i + 1] == edges[..i] + [(src, dst)];
      var violation := RankViolation(ranks, exempt, src, dst);
      if violation.Some? {
        assert (src, dst) in edges[..i + 1];
        issues := issues + [violation.value];
      }
    }
    assert edges[..|edges|] == edges;
    ghost var onEdges := issues;
    var stale := ranks.Keys - existing;
    while stale != {}
      invariant stale <= ranks.Keys - existing
      invariant forall v :: v in issues <==> v in onEdges || (v.StaleRank? && v.pkg in ranks.Keys - existing - stale)
      invariant issues == [] <==> onEdges == [] && stale == ranks.Keys - existing
      decreases stale
    {
      var pkg :| pkg in stale;
      stale := stale - {pkg};
      issues := issues + [StaleRank(pkg)];
    }
    assert onEdges != [] ==> onEdges[0] in onEdges;
    assert forall k :: k in ranks.Keys && k !in existing ==> k in ranks.Keys - existing;
    forall v ensures v in issues <==> OwesIssue(edges, ranks, config, existing, v) {
      IssueOfEdge(edges, ranks, config, existing, v);
    }
    GreenByConfig(edges, ranks, config, existing);
  }

  // ---- what green gates rule out ----

  /** The collapsed graph has exactly the counted pairs as edges. */
  ghost predicate HasEdges<T(!new)>(g: Graph<T>, edges: seq<(T, T)>) {
    forall a, b :: b in Succ(g, a) <==> (a, b) in edges
  }

  /** `package_adjacency`: the pairs gathered by their source. */
  method PackageAdjacency<T(==, !new)>(edges: seq<(T, T)>) returns (g: Graph<T>)
    ensures HasEdges(g, edges)
    ensures forall a :: a in g ==> g[a] != {}
  {
    g := map[];
    for i := 0 to |edges|
      invariant HasEdges(g, edges[..i])
      invariant forall a :: a in g ==> g[a] != {}
    {
      var (src, dst) := edges[i];
      assert edges[..i + 1] == edges[..i] + [(src, dst)];
      g := g[src := Succ(g, src) + {dst}];
    }
    assert edges[..|edges|] == edges;
  }

  /** An edge of the walk `p` that an exemption covers. */
  ghost predicate UsesExemption<T(!new)>(exempt: set<set<T>>, p: seq<T>) {
    exists i :: 0 < i < |p| && {p[i - 1], p[i]} in exempt
  }

  lemma {:induction false} RankFalls<T(!new)>(
    g: Graph<T>, edges: seq<(T, T)>, ranks: map<T, int>, exempt: set<set<T>>, existing: set<T>, p: seq<T>, k: nat)
    requires HasEdges(g, edges) && RanksGreen(edges, ranks, exempt, existing)
    requires IsPath(g, p) && !UsesExemption(exempt, p) && 0 < k < |p|
    ensures p[0] in ranks && p[k] in ranks && ranks[p[k]] <= ranks[p[0]] - k
  {
    assert (p[k - 1], p[k]) in edges && {p[k - 1], p[k]} !in exempt;
    if k > 1 {
      RankFalls(g, edges, ranks, exempt, existing, p, k - 1);
    }
  }

  /** Under a green rank gate every cycle of the package graph goes through an exempted edge. */
  lemma EveryCycleIsExempted<T(!new)>(
    g: Graph<T>, edges: seq<(T, T)>, ranks: map<T, int>, exempt: set<set<T>>, existing: set<T>, p: seq<T>)
    requires HasEdges(g, edges) && RanksGreen(edges, ranks, exempt, existing)
    requires IsPath(g, p) && |p| >= 2 && p[0] == p[|p| - 1]
    ensures UsesExemption(exempt, p)
  {
    if !UsesExemption(exempt, p) {
      RankFalls(g, edges, ranks, exempt, existing, p, |p| - 1);
      assert false;
    }
  }

  /** Under a green cycle gate the ends of every edge on a cycle are an exempted pair that imports both ways. */
  lemma CycleEdgesAreExempted<T(!new)>(g: Graph<T>, exempt: set<set<T>>, p: seq<T>, i: nat)
    requires CyclesGreen(g, exempt)
    requires IsPath(g, p) && p[0] == p[|p| - 1] && 0 < i < |p| && p[i - 1] != p[i]
    ensures {p[i - 1], p[i]} in exempt && p[i - 1] in Succ(g, p[i])
  {
    var x, y := p[i - 1], p[i];
    ReachEdge(g, x, y);
    assert Reach(g, y, x) by {
      PathReaches(g, p, i, |p| - 1);
      PathReaches(g, p, 0, i - 1);
      ReachTrans(g, y, p[0], x);
    }
    assert !Unexempted(g, exempt, x, y);
    assert x in {x, y} && y in {x, y} && BothWays(g, {x, y});
  }

  lemma PathReaches<T(!new)>(g: Graph<T>, p: seq<T>, i: nat, j: nat)
    requires IsPath(g, p) && i <= j < |p|
    ensures Reach(g, p[i], p[j])
  {
    var q := p[i..j + 1];
    assert IsPath(g, q);
  }
}
