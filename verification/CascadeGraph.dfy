/** The cascade graph over a manifest: `edda-codegen/src/graph.rs`, construction half. */
module CascadeGraph {
  import opened Manifests

  /** Forward edges run to dependencies, reverse edges to consumers. */
  datatype Graph = Graph(
    forward: map<Name, seq<Name>>,
    reverse: map<Name, seq<Name>>,
    entries: map<Name, ArtifactEntry>)
  {
    function ConsumersOf(short: Name): (r: seq<Name>) {
      if short in reverse then reverse[short] else []
    }

    function DependenciesOf(short: Name): (r: seq<Name>) {
      if short in forward then forward[short] else []
    }
  }

  // ----- What the indices mean, entry by entry -----

  ghost function ShortNames(artifacts: seq<ArtifactEntry>): set<Name> {
    set i | 0 <= i < |artifacts| :: artifacts[i].shortName
  }

  /** Every dependency listed under `short`, over all entries of that name, in manifest order. */
  ghost function DeclaredDeps(artifacts: seq<ArtifactEntry>, short: Name): seq<Name> {
    if artifacts == [] then []
    else
      var last := artifacts[|artifacts| - 1];
      DeclaredDeps(artifacts[..|artifacts| - 1], short)
      + (if last.shortName == short then last.nestedDeps else [])
  }

  /** `name` once for every occurrence of `dep` in `deps`. */
  ghost function OncePer(name: Name, deps: seq<Name>, dep: Name): seq<Name> {
    if deps == [] then []
    else OncePer(name, deps[..|deps| - 1], dep) + (if deps[|deps| - 1] == dep then [name] else [])
  }

  /** The names of the entries that list `dep`, once per listing, in manifest order. */
  ghost function DeclaredConsumers(artifacts: seq<ArtifactEntry>, dep: Name): seq<Name> {
    if artifacts == [] then []
    else
      var last := artifacts[|artifacts| - 1];
      DeclaredConsumers(artifacts[..|artifacts| - 1], dep) + OncePer(last.shortName, last.nestedDeps, dep)
  }

  /** The last entry called `short`. */
  ghost predicate IsLastNamed(artifacts: seq<ArtifactEntry>, short: Name, e: ArtifactEntry) {
    exists i :: 0 <= i < |artifacts| && artifacts[i] == e && e.shortName == short
                && forall j | i < j < |artifacts| :: artifacts[j].shortName != short
  }

  ghost predicate EntriesAreLast(entries: map<Name, ArtifactEntry>, artifacts: seq<ArtifactEntry>) {
    forall n | n in entries :: IsLastNamed(artifacts, n, entries[n])
  }

  /** `g` is the index of `artifacts`. */
  ghost predicate Indexes(g: Graph, artifacts: seq<ArtifactEntry>) {
    && g.entries.Keys == g.forward.Keys == g.reverse.Keys == ShortNames(artifacts)
    && EntriesAreLast(g.entries, artifacts)
    && (forall n | n in g.forward :: g.forward[n] == DeclaredDeps(artifacts, n))
    && (forall n | n in g.reverse :: g.reverse[n] == DeclaredConsumers(artifacts, n))
  }

  // ----- Construction -----

  ghost predicate NamesIndexed(g: Graph, artifacts: seq<ArtifactEntry>, k: nat)
    requires k <= |artifacts|
  {
    && g.entries.Keys == g.forward.Keys == g.reverse.Keys == ShortNames(artifacts[..k])
    && (forall n | n in g.forward :: g.forward[n] == [])
    && (forall n | n in g.reverse :: g.reverse[n] == [])
  }

  lemma LastNamedStep(artifacts: seq<ArtifactEntry>, k: nat, entries: map<Name, ArtifactEntry>)
    requires k < |artifacts|
    requires EntriesAreLast(entries, artifacts[..k])
    ensures EntriesAreLast(entries[artifacts[k].shortName := artifacts[k]], artifacts[..k + 1])
  {
    var entries' := entries[artifacts[k].shortName := artifacts[k]];
    var now := artifacts[..k + 1];
    forall n | n in entries' ensures IsLastNamed(now, n, entries'[n]) {
      if n == artifacts[k].shortName {
        assert now[k] == artifacts[k];
      } else {
        var i :| 0 <= i < k && artifacts[..k][i] == entries[n] && entries[n].shortName == n
                 && forall j | i < j < k :: artifacts[..k][j].shortName != n;
        assert now[i] == entries[n];
        forall j | i < j < |now| ensures now[j].shortName != n {
          if j < k { assert artifacts[..k][j] == now[j]; }
        }
      }
    }
  }

  lemma ShortNamesStep(artifacts: seq<ArtifactEntry>, k: nat)
    requires k < |artifacts|
    ensures ShortNames(artifacts[..k + 1]) == ShortNames(artifacts[..k]) + {artifacts[k].shortName}
  {
    var a, b := artifacts[..k], artifacts[..k + 1];
    forall n | n in ShortNames(b) ensures n in ShortNames(a) + {artifacts[k].shortName} {
      var i :| 0 <= i < |b| && b[i].shortName == n;
      if i < k { assert a[i] == b[i]; }
    }
    forall n | n in ShortNames(a) ensures n in ShortNames(b) {
      var i :| 0 <= i < |a| && a[i].shortName == n;
      assert b[i] == a[i];
    }
    assert b[k].shortName in ShortNames(b);
  }

  /** The graph after `entries.insert`, `forward.entry(..).or_default()` and the same on `reverse`. */
  function WithName(g: Graph, entry: ArtifactEntry): Graph {
    Graph(
      if entry.shortName in g.forward then g.forward else g.forward[entry.shortName := []],
      if entry.shortName in g.reverse then g.reverse else g.reverse[entry.shortName := []],
      g.entries[entry.shortName := entry])
  }

  lemma NamesIndexedStep(g: Graph, artifacts: seq<ArtifactEntry>, k: nat)
    requires k < |artifacts| && NamesIndexed(g, artifacts, k)
    ensures NamesIndexed(WithName(g, artifacts[k]), artifacts, k + 1)
  {
    ShortNamesStep(artifacts, k);
    var h := WithName(g, artifacts[k]);
    assert h.entries.Keys == g.entries.Keys + {artifacts[k].shortName};
    assert h.forward.Keys == g.forward.Keys + {artifacts[k].shortName};
    assert h.reverse.Keys == g.reverse.Keys + {artifacts[k].shortName};
  }

  /** First loop of `from_manifest`: register every short name with empty edge lists. */
  method RegisterNames(artifacts: seq<ArtifactEntry>) returns (g: Graph)
    ensures NamesIndexed(g, artifacts, |artifacts|) && EntriesAreLast(g.entries, artifacts)
  {
    g := Graph(map[], map[], map[]);
    for k := 0 to |artifacts|
      invariant NamesIndexed(g, artifacts, k) && EntriesAreLast(g.entries, artifacts[..k])
    {
      LastNamedStep(artifacts, k, g.entries);
      NamesIndexedStep(g, artifacts, k);
      g := WithName(g, artifacts[k]);
    }
    assert artifacts[..|artifacts|] == artifacts;
  }

  ghost predicate At(artifacts: seq<ArtifactEntry>, k: nat, i: nat) {
    if k < |artifacts| then i <= |artifacts[k].nestedDeps| else k == |artifacts| && i == 0
  }

  ghost function PartName(artifacts: seq<ArtifactEntry>, k: nat): Name {
    if k < |artifacts| then artifacts[k].shortName else []
  }

  ghost function Part(artifacts: seq<ArtifactEntry>, k: nat, i: nat): seq<Name>
    requires At(artifacts, k, i)
  {
    if k < |artifacts| then artifacts[k].nestedDeps[..i] else []
  }

  ghost predicate ForwardIndexed(forward: map<Name, seq<Name>>, artifacts: seq<ArtifactEntry>, k: nat, i: nat)
    requires At(artifacts, k, i)
  {
    forall n | n in forward ::
      forward[n] == DeclaredDeps(artifacts[..k], n)
                    + (if n == PartName(artifacts, k) then Part(artifacts, k, i) else [])
  }

  ghost predicate ReverseIndexed(reverse: map<Name, seq<Name>>, artifacts: seq<ArtifactEntry>, k: nat, i: nat)
    requires At(artifacts, k, i)
  {
    forall n | n in reverse ::
      reverse[n] == DeclaredConsumers(artifacts[..k], n) + OncePer(PartName(artifacts, k), Part(artifacts, k, i), n)
  }

  /** Edges recorded after entries `..k` and the first `i` dependencies of entry `k`. */
  ghost predicate EdgesIndexed(g: Graph, artifacts: seq<ArtifactEntry>, k: nat, i: nat)
    requires At(artifacts, k, i)
  {
    && g.forward.Keys == g.reverse.Keys == g.entries.Keys == ShortNames(artifacts)
    && ForwardIndexed(g.forward, artifacts, k, i)
    && ReverseIndexed(g.reverse, artifacts, k, i)
  }

  lemma EdgesNextEntry(g: Graph, artifacts: seq<ArtifactEntry>, k: nat)
    requires k < |artifacts| && EdgesIndexed(g, artifacts, k, |artifacts[k].nestedDeps|)
    ensures EdgesIndexed(g, artifacts, k + 1, 0)
  {
    var e := artifacts[k];
    assert artifacts[..k + 1][..k] == artifacts[..k] && artifacts[..k + 1][k] == e;
    assert e.nestedDeps[..|e.nestedDeps|] == e.nestedDeps;
  }

  /** The graph after one pass of the inner loop: push the dependency on the forward list, and the
      consumer on the reverse list when the dependency is itself an entry. */
  function WithEdge(g: Graph, name: Name, dep: Name): Graph
    requires name in g.forward && (dep in g.entries ==> dep in g.reverse)
  {
    g.(forward := g.forward[name := g.forward[name] + [dep]],
       reverse := if dep in g.entries then g.reverse[dep := g.reverse[dep] + [name]] else g.reverse)
  }

  lemma ForwardNextDep(forward: map<Name, seq<Name>>, artifacts: seq<ArtifactEntry>, k: nat, i: nat)
    requires k < |artifacts| && i < |artifacts[k].nestedDeps|
    requires artifacts[k].shortName in forward && ForwardIndexed(forward, artifacts, k, i)
    ensures var name, dep := artifacts[k].shortName, artifacts[k].nestedDeps[i];
            ForwardIndexed(forward[name := forward[name] + [dep]], artifacts, k, i + 1)
  {
    var e := artifacts[k];
    assert e.nestedDeps[..i + 1] == e.nestedDeps[..i] + [e.nestedDeps[i]];
  }

  lemma ReverseNextDep(reverse: map<Name, seq<Name>>, artifacts: seq<ArtifactEntry>, k: nat, i: nat)
    requires k < |artifacts| && i < |artifacts[k].nestedDeps|
    requires ReverseIndexed(reverse, artifacts, k, i)
    ensures var name, dep := artifacts[k].shortName, artifacts[k].nestedDeps[i];
            ReverseIndexed(if dep in reverse then reverse[dep := reverse[dep] + [name]] else reverse,
                           artifacts, k, i + 1)
  {
    var deps := artifacts[k].nestedDeps;
    assert deps[..i + 1][..i] == deps[..i] && deps[..i + 1][i] == deps[i];
  }

  lemma EdgesNextDep(g: Graph, artifacts: seq<ArtifactEntry>, k: nat, i: nat)
    requires k < |artifacts| && i < |artifacts[k].nestedDeps|
    requires EdgesIndexed(g, artifacts, k, i)
    ensures var name, dep := artifacts[k].shortName, artifacts[k].nestedDeps[i];
            name in g.forward && EdgesIndexed(WithEdge(g, name, dep), artifacts, k, i + 1)
  {
    var name, dep := artifacts[k].shortName, artifacts[k].nestedDeps[i];
    assert name in ShortNames(artifacts);
    ForwardNextDep(g.forward, artifacts, k, i);
    ReverseNextDep(g.reverse, artifacts, k, i);
    WithEdgeKeys(g, name, dep);
  }

  lemma WithEdgeKeys(g: Graph, name: Name, dep: Name)
    requires name in g.forward && (dep in g.entries <==> dep in g.reverse)
    ensures var h := WithEdge(g, name, dep);
      && h.entries == g.entries && h.forward.Keys == g.forward.Keys && h.reverse.Keys == g.reverse.Keys
      && h.forward == g.forward[name := g.forward[name] + [dep]]
      && h.reverse == if dep in g.reverse then g.reverse[dep := g.reverse[dep] + [name]] else g.reverse
  {
  }

  lemma IndexesFromEdges(g: Graph, artifacts: seq<ArtifactEntry>)
    requires EdgesIndexed(g, artifacts, |artifacts|, 0)
    requires EntriesAreLast(g.entries, artifacts)
    ensures Indexes(g, artifacts)
  {
    assert artifacts[..|artifacts|] == artifacts;
  }

  lemma EdgesFromNames(g: Graph, artifacts: seq<ArtifactEntry>)
    requires NamesIndexed(g, artifacts, |artifacts|)
    ensures EdgesIndexed(g, artifacts, 0, 0)
  {
    assert artifacts[..|artifacts|] == artifacts;
  }

  /** `CascadeGraph::from_manifest`. In terms of the manifest: a name depends on what any entry of that name
      lists, and its consumers are the names whose entries list it, if it is itself the name of an entry. */
  method FromManifest(manifest: Manifest) returns (g: Graph)
    ensures Indexes(g, manifest.artifacts) && Mirrored(g)
    ensures EdgesListed(g, manifest.artifacts) && ListsKept(g, manifest.artifacts)
  {
    g := RegisterNames(manifest.artifacts);
    EdgesFromNames(g, manifest.artifacts);
    g := AddEdges(g, manifest.artifacts);
    IndexesFromEdges(g, manifest.artifacts);
    IndexedGraphIsMirrored(g, manifest.artifacts);
    IndexedGraphIsListed(g, manifest.artifacts);
  }

  /** Second loop of `from_manifest`. */
  method AddEdges(g: Graph, artifacts: seq<ArtifactEntry>) returns (h: Graph)
    requires EdgesIndexed(g, artifacts, 0, 0)
    ensures h.entries == g.entries && EdgesIndexed(h, artifacts, |artifacts|, 0)
  {
    h := g;
    for k := 0 to |artifacts|
      invariant h.entries == g.entries && EdgesIndexed(h, artifacts, k, 0)
    {
      h := AddEdgesOf(h, artifacts, k);
    }
  }

  /** Inner loop of `from_manifest` over one entry's `nested_deps`. */
  method AddEdgesOf(g: Graph, artifacts: seq<ArtifactEntry>, k: nat) returns (h: Graph)
    requires k < |artifacts| && EdgesIndexed(g, artifacts, k, 0)
    ensures h.entries == g.entries && EdgesIndexed(h, artifacts, k + 1, 0)
  {
    h := g;
    for i := 0 to |artifacts[k].nestedDeps|
      invariant h.entries == g.entries && EdgesIndexed(h, artifacts, k, i)
    {
      EdgesNextDep(h, artifacts, k, i);
      h := WithEdge(h, artifacts[k].shortName, artifacts[k].nestedDeps[i]);
    }
    EdgesNextEntry(h, artifacts, k);
  }

  // ----- The two indices are converse, with multiplicity -----

  lemma {:induction false} OncePerCount(name: Name, deps: seq<Name>, dep: Name, c: Name)
    ensures multiset(OncePer(name, deps, dep))[c] == if c == name then multiset(deps)[dep] else 0
  {
    if deps != [] {
      var init, last := deps[..|deps| - 1], deps[|deps| - 1];
      OncePerCount(name, init, dep, c);
      assert deps == init + [last];
    }
  }

  /** A dependency listed k times by entries called `c` yields `c` k times in its consumer list,
      also when short names repeat. */
  lemma {:induction false} ConsumersMirrorDeps(artifacts: seq<ArtifactEntry>, dep: Name, c: Name)
    ensures multiset(DeclaredConsumers(artifacts, dep))[c] == multiset(DeclaredDeps(artifacts, c))[dep]
  {
    if artifacts != [] {
      var last := artifacts[|artifacts| - 1];
      ConsumersMirrorDeps(artifacts[..|artifacts| - 1], dep, c);
      OncePerCount(last.shortName, last.nestedDeps, dep, c);
    }
  }

  lemma {:induction false} DeclaredDepsOfUnknown(artifacts: seq<ArtifactEntry>, n: Name)
    requires n !in ShortNames(artifacts)
    ensures DeclaredDeps(artifacts, n) == []
  {
    if artifacts != [] {
      var k := |artifacts| - 1;
      assert artifacts[..k + 1] == artifacts;
      ShortNamesStep(artifacts, k);
      DeclaredDepsOfUnknown(artifacts[..k], n);
    }
  }

  /** Some entry called `c` lists `d`. */
  ghost predicate Lists(artifacts: seq<ArtifactEntry>, c: Name, d: Name) {
    exists i :: 0 <= i < |artifacts| && artifacts[i].shortName == c && d in artifacts[i].nestedDeps
  }

  /** Some entry called `c` lists `d`, and some entry is called `d`. */
  ghost predicate Consumes(artifacts: seq<ArtifactEntry>, c: Name, d: Name) {
    Lists(artifacts, c, d) && exists k :: 0 <= k < |artifacts| && artifacts[k].shortName == d
  }

  /** The edges, in terms of the manifest. */
  ghost predicate EdgesListed(g: Graph, artifacts: seq<ArtifactEntry>) {
    && (forall c, d :: d in g.DependenciesOf(c) <==> Lists(artifacts, c, d))
    && (forall c, d :: c in g.ConsumersOf(d) <==> Consumes(artifacts, c, d))
  }

  /** Order and repetitions are the manifest's. */
  ghost predicate ListsKept(g: Graph, artifacts: seq<ArtifactEntry>) {
    && (forall n :: g.DependenciesOf(n) == DeclaredDeps(artifacts, n))
    && (forall n | n in ShortNames(artifacts) :: g.ConsumersOf(n) == DeclaredConsumers(artifacts, n))
  }

  lemma IndexedGraphIsListed(g: Graph, artifacts: seq<ArtifactEntry>)
    requires Indexes(g, artifacts)
    ensures EdgesListed(g, artifacts) && ListsKept(g, artifacts)
  {
    forall c, d
      ensures d in g.DependenciesOf(c) <==> Lists(artifacts, c, d)
      ensures c in g.ConsumersOf(d) <==> Consumes(artifacts, c, d)
    {
      EdgesAreListed(g, artifacts, c, d);
    }
    forall n ensures g.DependenciesOf(n) == DeclaredDeps(artifacts, n) {
      if n !in g.entries { DeclaredDepsOfUnknown(artifacts, n); }
    }
  }

  lemma {:induction false} DeclaredIsListed(artifacts: seq<ArtifactEntry>, c: Name, d: Name)
    ensures d in DeclaredDeps(artifacts, c) <==> Lists(artifacts, c, d)
  {
    if artifacts != [] {
      var n := |artifacts| - 1;
      var init := artifacts[..n];
      DeclaredIsListed(init, c, d);
      assert forall i | 0 <= i < n :: artifacts[i] == init[i];
    }
  }

  /** The edges of an indexed graph are the dependencies the manifest lists. */
  lemma EdgesAreListed(g: Graph, artifacts: seq<ArtifactEntry>, c: Name, d: Name)
    requires Indexes(g, artifacts)
    ensures d in g.DependenciesOf(c) <==> Lists(artifacts, c, d)
    ensures c in g.ConsumersOf(d) <==> Consumes(artifacts, c, d)
  {
    DeclaredIsListed(artifacts, c, d);
    if c !in g.entries { DeclaredDepsOfUnknown(artifacts, c); }
    ConsumersMirrorDeps(artifacts, d, c);
    var deps, consumers := DeclaredDeps(artifacts, c), DeclaredConsumers(artifacts, d);
    assert d in deps <==> multiset(deps)[d] > 0;
    assert c in consumers <==> multiset(consumers)[c] > 0;
  }

  /** The graph invariant the walker relies on: for a dependency that is itself an entry the two
      indices agree with multiplicity; a dependency outside the manifest has no reverse edges. */
  ghost predicate Mirrored(g: Graph) {
    && g.entries.Keys == g.forward.Keys == g.reverse.Keys
    && forall d: Name, c: Name {:trigger multiset(g.ConsumersOf(d))[c]} {:trigger multiset(g.DependenciesOf(c))[d]} ::
         multiset(g.ConsumersOf(d))[c] == if d in g.entries then multiset(g.DependenciesOf(c))[d] else 0
  }

  lemma IndexedGraphIsMirrored(g: Graph, artifacts: seq<ArtifactEntry>)
    requires Indexes(g, artifacts)
    ensures Mirrored(g)
  {
    forall d: Name, c: Name
      ensures multiset(g.ConsumersOf(d))[c] == if d in g.entries then multiset(g.DependenciesOf(c))[d] else 0
    {
      ConsumersMirrorDeps(artifacts, d, c);
      if c !in g.entries { DeclaredDepsOfUnknown(artifacts, c); }
    }
  }
}
