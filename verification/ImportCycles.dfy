/** The import-cycle gate: which imports are edges, and the report that names a cycle's statements. */
module ImportCycles {
  import opened Wrappers
  import opened CycleSearch
  import opened Sequences

  type Name = string
  type Site = (string, int)

  /** One import statement's target: where it stands, the importing module and the imported one, in dotted parts. */
  datatype Import = Import(file: string, line: int, src: seq<Name>, dst: seq<Name>)

  const ROOT: Name := "msks"

  /** What the walk yields: importer and target both lie under the package root. */
  predicate Walked(e: Import) {
    e.src != [] && e.src[0] == ROOT && e.dst != [] && e.dst[0] == ROOT
  }

  /** `".".join(parts)`. */
  function Dotted(parts: seq<Name>): string {
    if parts == [] then ""
    else if |parts| == 1 then parts[0]
    else parts[0] + "." + Dotted(parts[1..])
  }

  function Key(e: Import): (string, string) {
    (Dotted(e.src), Dotted(e.dst))
  }

  /** An import of itself or of an ancestor package never loops. */
  predicate CanLoop(e: Import) {
    var src, dst := Dotted(e.src), Dotted(e.dst);
    !(dst == src || dst + "." <= src)
  }

  // ---- the filter on names is the filter on parts ----

  /** Each part followed by a dot. */
  function Terminated(parts: seq<Name>): string {
    if parts == [] then "" else parts[0] + "." + Terminated(parts[1..])
  }

  ghost predicate DotFree(parts: seq<Name>) {
    forall p :: p in parts ==> '.' !in p
  }

  lemma {:induction false} TerminatedIsDotted(parts: seq<Name>)
    requires parts != []
    ensures Terminated(parts) == Dotted(parts) + "."
  {
    if |parts| > 1 {
      TerminatedIsDotted(parts[1..]);
    } else {
      assert Terminated(parts[1..]) == "";
    }
  }

  /** Dot-free words read off the front of a dotted text are unique. */
  lemma FirstWord(a: string, b: string, s: string, t: string)
    requires '.' !in a && '.' !in b
    requires a + "." + s <= b + "." + t
    ensures a == b && s <= t
  {
    var l, r := a + "." + s, b + "." + t;
    assert l[|a|] == '.' && r[|b|] == '.';
    assert forall k :: 0 <= k < |a| ==> l[k] == a[k];
    assert forall k :: 0 <= k < |b| ==> r[k] == b[k];
    assert |a| == |b|;
    assert a == l[..|a|] && b == r[..|b|];
    assert s == l[|a| + 1..] && t == r[|b| + 1..];
  }

  lemma {:induction false} TerminatedPrefix(dst: seq<Name>, src: seq<Name>)
    requires DotFree(dst) && DotFree(src)
    ensures Terminated(dst) <= Terminated(src) <==> dst <= src
  {
    if dst != [] && src != [] {
      assert dst == [dst[0]] + dst[1..] && src == [src[0]] + src[1..];
      TerminatedPrefix(dst[1..], src[1..]);
      if Terminated(dst) <= Terminated(src) {
        FirstWord(dst[0], src[0], Terminated(dst[1..]), Terminated(src[1..]));
      }
    }
  }

  /** The joined-name test of this gate is the tuple-prefix test of the import-graph gates. */
  lemma CanLoopIsNotAncestor(e: Import)
    requires Walked(e) && DotFree(e.src) && DotFree(e.dst)
    ensures CanLoop(e) <==> !(e.dst <= e.src)
  {
    var src, dst := Dotted(e.src), Dotted(e.dst);
    TerminatedIsDotted(e.src);
    TerminatedIsDotted(e.dst);
    TerminatedPrefix(e.dst, e.src);
    assert dst + "." <= src + "." <==> dst == src || dst + "." <= src by {
      if dst + "." <= src + "." && |dst| < |src| {
        assert dst + "." == (src + ".")[..|dst| + 1] == src[..|dst| + 1];
      }
      if dst + "." <= src + "." && |dst| == |src| {
        assert dst == (dst + ".")[..|dst|] == (src + ".")[..|dst|] == src;
      }
    }
  }

  // ---- import_sites ----

  /** `k` names the importer and the imported module, in that order. */
  ghost predicate IsKey(e: Import, k: (string, string)) {
    k.0 == Dotted(e.src) && k.1 == Dotted(e.dst)
  }

  lemma KeysAreKeys()
    ensures forall e :: IsKey(e, Key(e))
    ensures forall e, k :: IsKey(e, k) ==> k == Key(e)
  {
    hide Dotted;
  }

  /** `k` is the key of an import that can loop. */
  ghost predicate IsSiteKey(imports: seq<Import>, k: (string, string)) {
    exists i :: 0 <= i < |imports| && CanLoop(imports[i]) && IsKey(imports[i], k)
  }

  /** `at` is where the first import with key `k` stands. */
  ghost predicate IsFirstSite(imports: seq<Import>, k: (string, string), at: Site) {
    exists i :: 0 <= i < |imports| && CanLoop(imports[i]) && IsKey(imports[i], k)
      && at == (imports[i].file, imports[i].line)
      && forall j :: 0 <= j < i && CanLoop(imports[j]) ==> !IsKey(imports[j], k)
  }

  ghost predicate AreSites(imports: seq<Import>, keys: seq<(string, string)>, sites: map<(string, string), Site>) {
    && (forall k :: k in keys <==> k in sites)
    && (forall k :: k in sites <==> IsSiteKey(imports, k))
    && (forall k :: k in sites ==> IsFirstSite(imports, k, sites[k]))
  }

  /** A dictionary in insertion order: its keys as a list, and the map itself. */
  method ImportSites(imports: seq<Import>) returns (keys: seq<(string, string)>, sites: map<(string, string), Site>)
    ensures Distinct(keys) && AreSites(imports, keys, sites)
  {
    hide AreSites, Key, CanLoop, IsKey;
    keys, sites := [], map[];
    NoImports();
    assert imports[..0] == [];
    for i := 0 to |imports|
      invariant Distinct(keys) && AreSites(imports[..i], keys, sites)
    {
      var e := imports[i];
      AddImport(imports[..i], e, keys, sites);
      assert imports[..i + 1] == imports[..i] + [e];
      if CanLoop(e) && Key(e) !in sites {
        keys := keys + [Key(e)];
        sites := sites[Key(e) := (e.file, e.line)];
      }
    }
    assert imports[..|imports|] == imports;
  }

  lemma NoImports()
    ensures AreSites([], [], map[])
  {
  }

  lemma AddImport(imports: seq<Import>, e: Import, keys: seq<(string, string)>, sites: map<(string, string), Site>)
    requires AreSites(imports, keys, sites)
    ensures if CanLoop(e) && Key(e) !in sites
            then AreSites(imports + [e], keys + [Key(e)], sites[Key(e) := (e.file, e.line)])
            else AreSites(imports + [e], keys, sites)
    ensures Key(e) in keys <==> Key(e) in sites
  {
    KeysAreKeys();
    hide CanLoop, Key, IsKey;
    var more := imports + [e];
    assert more[|imports|] == e;
    assert forall i :: 0 <= i < |imports| ==> more[i] == imports[i];
    forall k | IsSiteKey(imports, k) ensures IsSiteKey(more, k) {
      var i :| 0 <= i < |imports| && CanLoop(imports[i]) && IsKey(imports[i], k);
      assert more[i] == imports[i];
    }
    forall k | k in sites ensures IsFirstSite(more, k, sites[k]) {
      var i :| 0 <= i < |imports| && CanLoop(imports[i]) && IsKey(imports[i], k)
        && sites[k] == (imports[i].file, imports[i].line)
        && forall j :: 0 <= j < i && CanLoop(imports[j]) ==> !IsKey(imports[j], k);
      assert more[i] == imports[i];
    }
    if CanLoop(e) && Key(e) !in sites {
      assert IsFirstSite(more, Key(e), (e.file, e.line)) by {
        forall j | 0 <= j < |imports| && CanLoop(more[j]) ensures !IsKey(more[j], Key(e)) {
          assert more[j] == imports[j];
          assert IsKey(imports[j], Key(e)) ==> IsSiteKey(imports, Key(e));
        }
      }
    }
  }

  /** No site names the empty module, so the search's `if found:` tests only whether a node was returned. */
  lemma SiteNamesAreNotEmpty(imports: seq<Import>, k: (string, string))
    requires forall e :: e in imports ==> Walked(e)
    requires IsSiteKey(imports, k)
    ensures ROOT <= k.0 && ROOT <= k.1
  {
    var i :| 0 <= i < |imports| && CanLoop(imports[i]) && IsKey(imports[i], k);
    assert imports[i] in imports;
  }

  // ---- main ----

  /** A closed walk along imports that can loop. */
  ghost predicate IsImportCycle(imports: seq<Import>, p: seq<string>) {
    && |p| >= 2 && p[0] == p[|p| - 1]
    && forall i :: 0 < i < |p| ==> IsSiteKey(imports, (p[i - 1], p[i]))
  }

  /** One reported line: the importer, the imported module, and the first statement that makes the edge. */
  datatype Link = Link(src: string, dst: string, site: Site)

  /** The links lie end to end, close up, and each names its edge's first import statement. */
  ghost predicate IsReport(imports: seq<Import>, links: seq<Link>) {
    && links != [] && links[0].src == links[|links| - 1].dst
    && (forall i :: 0 < i < |links| ==> links[i - 1].dst == links[i].src)
    && (forall i, j :: 0 <= i < j < |links| ==> links[i].src != links[j].src)
    && (forall l :: l in links ==> IsFirstSite(imports, (l.src, l.dst), l.site))
  }

  /** The gate: None for exit status 0, else the chain; no lookup in the sites misses. */
  method CheckImportCycles(imports: seq<Import>) returns (report: Option<seq<Link>>)
    ensures report.Some? ==> IsReport(imports, report.value)
    ensures report.Some? <==> exists p :: IsImportCycle(imports, p)
  {
    hide IsFirstSite, IsSiteKey;
    var keys, sites := ImportSites(imports);
    var cycle := FindCycle(keys);
    SameCycles(imports, keys, sites);
    if cycle.None? {
      return None;
    }
    var chain := cycle.value;
    var links: seq<Link> := [];
    for i := 1 to |chain|
      invariant |links| == i - 1
      invariant forall k :: 0 <= k < |links| ==> links[k].src == chain[k] && links[k].dst == chain[k + 1]
      invariant forall l :: l in links ==> IsFirstSite(imports, (l.src, l.dst), l.site)
    {
      links := links + [Link(chain[i - 1], chain[i], sites[(chain[i - 1], chain[i])])];
    }
    assert forall k :: 0 <= k < |links| ==> chain[..|chain| - 1][k] == links[k].src;
    return Some(links);
  }

  lemma SameCycles(imports: seq<Import>, keys: seq<(string, string)>, sites: map<(string, string), Site>)
    requires AreSites(imports, keys, sites)
    ensures HasCycle(keys) <==> exists p :: IsImportCycle(imports, p)
  {
    hide IsSiteKey, IsFirstSite;
    if HasCycle(keys) {
      var p :| IsClosedWalk(keys, p);
      assert IsImportCycle(imports, p);
    }
    if p :| IsImportCycle(imports, p) {
      assert IsClosedWalk(keys, p);
    }
  }
}
