/** What a cascade plan is for (`edda-codegen/src/graph.rs`, module and `CascadePlan` contracts): the
    caller re-renders the planned artifacts in order, stopping at every node whose recomputed hash
    matches, and ends with the contents a build from scratch would produce.

    Rendering and hashing are parameters; `digest` stands for BLAKE3. */
module CascadeRebuild {
  import opened Bytes
  import opened Manifests
  import opened CascadeGraph
  import opened CascadeWalk
  import opened CascadeSort
  import opened CascadeBuild

  // ----- Rebuilding along a plan -----

  /** Some input of `n` is different from what it was: its source, or a dependency's content. */
  predicate InputsChanged(g: Graph, roots: seq<Name>, changed: set<Name>, n: Name) {
    n in roots || exists d | d in g.DependenciesOf(n) :: d in changed
  }

  ghost predicate PlanFor(g: Graph, roots: seq<Name>, plan: seq<Name>) {
    IsPlan(g, Closure(g, roots), plan) && forall n :: n in plan <==> Affected(g, roots, n)
  }

  lemma NextNode(plan: seq<Name>, k: nat)
    requires NoDuplicates(plan) && k < |plan|
    ensures plan[k] in plan && plan[k] !in plan[..k]
  {
  }

  lemma PlannedIsEntry(g: Graph, roots: seq<Name>, plan: seq<Name>, n: Name)
    requires Mirrored(g) && PlanFor(g, roots, plan) && n in plan && forall r | r in roots :: r in g.entries
    ensures n in g.entries
  {
    AffectedBounded(g, roots, n);
  }

  lemma RootIsAffected(g: Graph, roots: seq<Name>, n: Name)
    ensures n in roots ==> Affected(g, roots, n)
  {
    var p := [n];
    assert n in roots ==> WalkFrom(g, roots, p) && p[|p| - 1] == n;
  }

  /** An artifact that is no root has the source and the dependencies it had, and none of them went. */
  ghost predicate Unedited<S(!new)>(oldG: Graph, g: Graph, oldSources: map<Name, S>, sources: map<Name, S>, n: Name) {
    && n in oldG.entries && n in oldSources && n in sources && sources[n] == oldSources[n]
    && g.DependenciesOf(n) == oldG.DependenciesOf(n)
    && forall d | d in g.DependenciesOf(n) :: d in oldG.entries ==> d in g.entries
  }

  /** `prior` is a complete build over the old graph, and every difference between the old and the new graph and
      sources is at a root: a new artifact, a changed source, a changed dependency list, a dependency that went. */
  ghost predicate Edited<S(!new), C(!new)>(oldG: Graph, g: Graph, render: Render<S, C>, oldSources: map<Name, S>,
                                           sources: map<Name, S>, prior: map<Name, C>, roots: seq<Name>)
  {
    && Built(oldG, render, oldSources, prior)
    && sources.Keys == g.entries.Keys
    && (forall r | r in roots :: r in g.entries)
    && (forall n | n in g.entries && n !in roots :: Unedited(oldG, g, oldSources, sources, n))
  }

  /** The digest tells apart, at every affected artifact, its prior content and its content in the full build. */
  ghost predicate Distinguishes<C(!new)>(digest: C -> Hash, g: Graph, roots: seq<Name>, prior: map<Name, C>,
                                         full: map<Name, C>)
  {
    forall n | n in prior && n in full && Affected(g, roots, n) ::
      digest(full[n]) == digest(prior[n]) ==> full[n] == prior[n]
  }

  ghost predicate UpToDate<C(!new)>(prior: map<Name, C>, full: map<Name, C>, n: Name) {
    n in prior && n in full && prior[n] == full[n]
  }

  /** An unedited artifact whose dependencies are all up to date is up to date. */
  lemma SameInputsSameContent<S(!new), C(!new)>(oldG: Graph, g: Graph, render: Render<S, C>, oldSources: map<Name, S>,
                                                sources: map<Name, S>, prior: map<Name, C>, full: map<Name, C>, n: Name)
    requires Built(oldG, render, oldSources, prior) && Built(g, render, sources, full)
    requires n in g.entries && Unedited(oldG, g, oldSources, sources, n)
    requires forall d | d in g.DependenciesOf(n) && d in g.entries :: UpToDate(prior, full, d)
    ensures UpToDate(prior, full, n)
  {
    InputsAgree(g.DependenciesOf(n), prior, full);
    assert Rendered(oldG, render, oldSources, prior, n) && Rendered(g, render, sources, full, n);
  }

  lemma UnaffectedDep(g: Graph, roots: seq<Name>, n: Name, d: Name)
    requires Mirrored(g) && d in g.DependenciesOf(n) && d in g.entries && !Affected(g, roots, n)
    ensures !Affected(g, roots, d)
  {
    if Affected(g, roots, d) {
      ConsumersAreEntries(g, d, n);
      AffectedStep(g, roots, d, n);
    }
  }

  /** Unedited artifacts, with all their dependencies. */
  ghost predicate Quiet<S(!new)>(oldG: Graph, g: Graph, oldSources: map<Name, S>, sources: map<Name, S>,
                                 quiet: set<Name>)
  {
    forall n | n in quiet ::
      && n in g.entries && Unedited(oldG, g, oldSources, sources, n)
      && forall d | d in g.DependenciesOf(n) && d in g.entries :: d in quiet
  }

  /** Such artifacts are up to date. */
  lemma {:induction false} QuietIsUpToDate<S(!new), C(!new)>(oldG: Graph, g: Graph, render: Render<S, C>,
        oldSources: map<Name, S>, sources: map<Name, S>, prior: map<Name, C>, full: map<Name, C>, quiet: set<Name>,
        order: seq<Name>, k: nat)
    requires Built(oldG, render, oldSources, prior) && Built(g, render, sources, full)
    requires Quiet(oldG, g, oldSources, sources, quiet) && DepsFirst(g, g.entries.Keys, order)
    requires k < |order| && order[k] in quiet
    ensures UpToDate(prior, full, order[k])
    decreases k
  {
    var n := order[k];
    forall d | d in g.DependenciesOf(n) && d in g.entries ensures UpToDate(prior, full, d) {
      assert d in order[..k];
      var j :| 0 <= j < k && order[j] == d;
      QuietIsUpToDate(oldG, g, render, oldSources, sources, prior, full, quiet, order, j);
    }
    SameInputsSameContent(oldG, g, render, oldSources, sources, prior, full, n);
  }

  /** What the walk does not reach is quiet. */
  lemma UnaffectedIsQuiet<S(!new), C(!new)>(oldG: Graph, g: Graph, render: Render<S, C>, oldSources: map<Name, S>,
        sources: map<Name, S>, prior: map<Name, C>, roots: seq<Name>, quiet: set<Name>)
    requires Mirrored(g) && Edited(oldG, g, render, oldSources, sources, prior, roots)
    requires forall n :: n in quiet <==> n in g.entries && !Affected(g, roots, n)
    ensures Quiet(oldG, g, oldSources, sources, quiet)
  {
    forall n | n in quiet
      ensures n !in roots && forall d | d in g.DependenciesOf(n) && d in g.entries :: d in quiet
    {
      RootIsAffected(g, roots, n);
      forall d | d in g.DependenciesOf(n) && d in g.entries ensures d in quiet { UnaffectedDep(g, roots, n, d); }
    }
  }

  // ----- The loop -----

  /** Everything but the planned nodes still to come. */
  predicate Settled(plan: seq<Name>, k: nat, n: Name)
    requires k <= |plan|
  {
    n !in plan || n in plan[..k]
  }

  /** Settled artifacts have their content of the full build, the others still their prior one, and the changed
      ones are known. */
  ghost predicate Progress<C(!new)>(g: Graph, prior: map<Name, C>, full: map<Name, C>, contents: map<Name, C>,
                                    changed: set<Name>, plan: seq<Name>, k: nat)
    requires k <= |plan|
  {
    && contents.Keys <= g.entries.Keys == full.Keys
    && (forall n | n in g.entries && Settled(plan, k, n) :: n in contents && contents[n] == full[n])
    && (forall n | n in g.entries && !Settled(plan, k, n) ::
          (n in contents <==> n in prior) && (n in contents ==> contents[n] == prior[n]))
    && (forall n | n in g.entries && Settled(plan, k, n) && n !in changed :: UpToDate(prior, full, n))
    && (forall n | n in changed :: n in g.entries && Settled(plan, k, n) && !UpToDate(prior, full, n))
  }

  /** The inputs of the next planned node are settled. */
  lemma NextInputsAreSettled(g: Graph, sub: set<Name>, plan: seq<Name>, k: nat, d: Name)
    requires IsPlan(g, sub, plan) && k < |plan| && d in g.DependenciesOf(plan[k])
    ensures Settled(plan, k, d)
  {
    if d in plan {
      assert d in sub;
    }
  }

  lemma NextRendersToFull<S(!new), C(!new)>(g: Graph, render: Render<S, C>, sources: map<Name, S>, prior: map<Name, C>,
                                            full: map<Name, C>, contents: map<Name, C>, changed: set<Name>,
                                            plan: seq<Name>, k: nat)
    requires Built(g, render, sources, full) && k < |plan| && plan[k] in g.entries
    requires forall d | d in g.DependenciesOf(plan[k]) :: Settled(plan, k, d)
    requires Progress(g, prior, full, contents, changed, plan, k)
    ensures full[plan[k]] == render(plan[k], sources[plan[k]], Inputs(g.DependenciesOf(plan[k]), contents))
  {
    InputsAgree(g.DependenciesOf(plan[k]), contents, full);
    assert Rendered(g, render, sources, full, plan[k]);
  }

  /** Skipping a node none of whose inputs changed is right: it is up to date. */
  lemma SkippedIsUpToDate<S(!new), C(!new)>(oldG: Graph, g: Graph, render: Render<S, C>, oldSources: map<Name, S>,
        sources: map<Name, S>, prior: map<Name, C>, full: map<Name, C>, contents: map<Name, C>, changed: set<Name>,
        roots: seq<Name>, plan: seq<Name>, k: nat)
    requires Edited(oldG, g, render, oldSources, sources, prior, roots) && Built(g, render, sources, full)
    requires k < |plan| && plan[k] in g.entries && forall d | d in g.DependenciesOf(plan[k]) :: Settled(plan, k, d)
    requires Progress(g, prior, full, contents, changed, plan, k) && !InputsChanged(g, roots, changed, plan[k])
    ensures UpToDate(prior, full, plan[k])
  {
    SameInputsSameContent(oldG, g, render, oldSources, sources, prior, full, plan[k]);
  }

  lemma ProgressStep<C(!new)>(g: Graph, prior: map<Name, C>, full: map<Name, C>, contents: map<Name, C>,
                              changed: set<Name>, plan: seq<Name>, k: nat, contents': map<Name, C>, changed': set<Name>)
    requires k < |plan| && plan[k] in g.entries && NoDuplicates(plan)
    requires Progress(g, prior, full, contents, changed, plan, k)
    requires contents' == contents[plan[k] := full[plan[k]]] && changed <= changed' <= changed + {plan[k]}
    requires plan[k] !in changed' <==> UpToDate(prior, full, plan[k])
    ensures Progress(g, prior, full, contents', changed', plan, k + 1)
  {
    NextInPrefix(plan, k);
    NextNode(plan, k);
    assert forall n :: Settled(plan, k + 1, n) <==> Settled(plan, k, n) || n == plan[k];
  }

  lemma NextIsReady(g: Graph, roots: seq<Name>, plan: seq<Name>, k: nat)
    requires Mirrored(g) && PlanFor(g, roots, plan) && k < |plan| && forall r | r in roots :: r in g.entries
    ensures plan[k] in g.entries && NoDuplicates(plan) && Affected(g, roots, plan[k])
    ensures forall d | d in g.DependenciesOf(plan[k]) :: Settled(plan, k, d)
  {
    PlannedIsEntry(g, roots, plan, plan[k]);
    forall d | d in g.DependenciesOf(plan[k]) ensures Settled(plan, k, d) {
      NextInputsAreSettled(g, Closure(g, roots), plan, k, d);
    }
  }

  /** Rendering settles the node; it counts as changed exactly when its content is another than before. */
  lemma RenderSettles<S(!new), C(!new)>(g: Graph, render: Render<S, C>, digest: C -> Hash, sources: map<Name, S>,
        prior: map<Name, C>, full: map<Name, C>, roots: seq<Name>, contents: map<Name, C>, changed: set<Name>,
        plan: seq<Name>, k: nat, renewed: C)
    requires Built(g, render, sources, full) && Distinguishes(digest, g, roots, prior, full)
    requires k < |plan| && plan[k] in g.entries && NoDuplicates(plan) && Affected(g, roots, plan[k])
    requires forall d | d in g.DependenciesOf(plan[k]) :: Settled(plan, k, d)
    requires Progress(g, prior, full, contents, changed, plan, k)
    requires renewed == render(plan[k], sources[plan[k]], Inputs(g.DependenciesOf(plan[k]), contents))
    ensures var n := plan[k];
      var differs := n !in contents || digest(renewed) != digest(contents[n]);
      Progress(g, prior, full, if differs then contents[n := renewed] else contents,
               if differs then changed + {n} else changed, plan, k + 1)
  {
    var n := plan[k];
    NextNode(plan, k);
    NextRendersToFull(g, render, sources, prior, full, contents, changed, plan, k);
    if n !in contents || digest(renewed) != digest(contents[n]) {
      ProgressStep(g, prior, full, contents, changed, plan, k, contents[n := renewed], changed + {n});
    } else {
      assert contents == contents[n := full[n]];
      ProgressStep(g, prior, full, contents, changed, plan, k, contents, changed);
    }
  }

  /** A node with unchanged inputs is settled as it is. */
  lemma SkipSettles<S(!new), C(!new)>(oldG: Graph, g: Graph, render: Render<S, C>, oldSources: map<Name, S>,
        sources: map<Name, S>, prior: map<Name, C>, full: map<Name, C>, contents: map<Name, C>, changed: set<Name>,
        roots: seq<Name>, plan: seq<Name>, k: nat)
    requires Edited(oldG, g, render, oldSources, sources, prior, roots) && Built(g, render, sources, full)
    requires k < |plan| && plan[k] in g.entries && NoDuplicates(plan)
    requires forall d | d in g.DependenciesOf(plan[k]) :: Settled(plan, k, d)
    requires Progress(g, prior, full, contents, changed, plan, k) && !InputsChanged(g, roots, changed, plan[k])
    ensures Progress(g, prior, full, contents, changed, plan, k + 1)
  {
    NextNode(plan, k);
    SkippedIsUpToDate(oldG, g, render, oldSources, sources, prior, full, contents, changed, roots, plan, k);
    assert contents == contents[plan[k] := full[plan[k]]];
    ProgressStep(g, prior, full, contents, changed, plan, k, contents, changed);
  }

  /** An artifact has to be rendered anew: it was edited, or the content of some dependency is another than before. */
  ghost predicate Stale<C(!new)>(g: Graph, roots: seq<Name>, prior: map<Name, C>, full: map<Name, C>, n: Name) {
    n in roots || exists d :: d in g.DependenciesOf(n) && d in g.entries && !UpToDate(prior, full, d)
  }

  lemma InputsChangedIffStale<C(!new)>(g: Graph, roots: seq<Name>, prior: map<Name, C>, full: map<Name, C>,
        contents: map<Name, C>, changed: set<Name>, plan: seq<Name>, k: nat)
    requires k < |plan| && forall d | d in g.DependenciesOf(plan[k]) :: Settled(plan, k, d)
    requires Progress(g, prior, full, contents, changed, plan, k)
    ensures InputsChanged(g, roots, changed, plan[k]) <==> Stale(g, roots, prior, full, plan[k])
  {
  }

  /** One planned node: skip it, or re-render it and compare digests. */
  method RebuildOne<S(!new), C(!new)>(g: Graph, ghost oldG: Graph, render: Render<S, C>, digest: C -> Hash,
        ghost oldSources: map<Name, S>, sources: map<Name, S>, ghost prior: map<Name, C>, ghost full: map<Name, C>,
        roots: seq<Name>, plan: seq<Name>, contents: map<Name, C>, changed: set<Name>, k: nat)
    returns (contents': map<Name, C>, changed': set<Name>, rendered: bool)
    requires Mirrored(g) && PlanFor(g, roots, plan) && k < |plan|
    requires Edited(oldG, g, render, oldSources, sources, prior, roots) && Built(g, render, sources, full)
    requires Distinguishes(digest, g, roots, prior, full) && Progress(g, prior, full, contents, changed, plan, k)
    ensures Progress(g, prior, full, contents', changed', plan, k + 1)
    ensures rendered <==> Stale(g, roots, prior, full, plan[k])
  {
    var n := plan[k];
    NextIsReady(g, roots, plan, k);
    InputsChangedIffStale(g, roots, prior, full, contents, changed, plan, k);
    contents', changed' := contents, changed;
    rendered := InputsChanged(g, roots, changed, n);
    if rendered {
      var renewed := render(n, sources[n], Inputs(g.DependenciesOf(n), contents));
      RenderSettles(g, render, digest, sources, prior, full, roots, contents, changed, plan, k, renewed);
      if n !in contents || digest(renewed) != digest(contents[n]) {
        contents', changed' := contents[n := renewed], changed + {n};
      }
    } else {
      SkipSettles(oldG, g, render, oldSources, sources, prior, full, contents, changed, roots, plan, k);
    }
  }

  lemma ProgressStart<C(!new)>(g: Graph, roots: seq<Name>, prior: map<Name, C>, full: map<Name, C>,
                               contents: map<Name, C>, plan: seq<Name>)
    requires PlanFor(g, roots, plan) && full.Keys == g.entries.Keys
    requires contents == map n | n in prior && n in g.entries :: prior[n]
    requires forall n | n in g.entries && !Affected(g, roots, n) :: UpToDate(prior, full, n)
    ensures Progress(g, prior, full, contents, {}, plan, 0)
  {
    forall n | n in g.entries && Settled(plan, 0, n) ensures UpToDate(prior, full, n) {
      assert n !in plan;
    }
  }

  lemma ProgressEnd<C(!new)>(g: Graph, prior: map<Name, C>, full: map<Name, C>, contents: map<Name, C>,
                             changed: set<Name>, plan: seq<Name>)
    requires Progress(g, prior, full, contents, changed, plan, |plan|)
    ensures contents == full
  {
    assert plan[..|plan|] == plan;
    assert forall n | n in g.entries :: Settled(plan, |plan|, n);
  }

  /** What is stale is affected, so it is in the plan. */
  lemma StaleIsAffected<C(!new)>(g: Graph, roots: seq<Name>, prior: map<Name, C>, full: map<Name, C>, n: Name)
    requires Mirrored(g) && n in g.entries && Stale(g, roots, prior, full, n)
    requires forall m | m in g.entries && !Affected(g, roots, m) :: UpToDate(prior, full, m)
    ensures Affected(g, roots, n)
  {
    if !Affected(g, roots, n) {
      RootIsAffected(g, roots, n);
      var d :| d in g.DependenciesOf(n) && d in g.entries && !UpToDate(prior, full, d);
      UnaffectedDep(g, roots, n, d);
    }
  }

  /** The caller's loop over `regenerate_order`, starting from the prior contents of what is still there. */
  method Rebuild<S(!new), C(!new)>(g: Graph, ghost oldG: Graph, render: Render<S, C>, digest: C -> Hash,
        ghost oldSources: map<Name, S>, sources: map<Name, S>, prior: map<Name, C>, ghost full: map<Name, C>,
        roots: seq<Name>, plan: seq<Name>)
    returns (contents: map<Name, C>, rendered: set<Name>)
    requires Mirrored(g) && PlanFor(g, roots, plan)
    requires Edited(oldG, g, render, oldSources, sources, prior, roots) && Built(g, render, sources, full)
    requires Distinguishes(digest, g, roots, prior, full)
    requires forall n | n in g.entries && !Affected(g, roots, n) :: UpToDate(prior, full, n)
    ensures contents == full
    ensures forall n :: n in rendered <==> n in plan && Stale(g, roots, prior, full, n)
  {
    rendered := {};
    contents := map n | n in prior && n in g.entries :: prior[n];
    var changed: set<Name> := {};
    ProgressStart(g, roots, prior, full, contents, plan);
    for k := 0 to |plan|
      invariant Progress(g, prior, full, contents, changed, plan, k)
      invariant forall n :: n in rendered <==> n in plan[..k] && Stale(g, roots, prior, full, n)
    {
      var anew;
      contents, changed, anew :=
        RebuildOne(g, oldG, render, digest, oldSources, sources, prior, full, roots, plan, contents, changed, k);
      NextInPrefix(plan, k);
      if anew { rendered := rendered + {plan[k]}; }
    }
    assert plan[..|plan|] == plan;
    ProgressEnd(g, prior, full, contents, changed, plan);
  }

  // ----- Against a build from scratch -----

  lemma ClosureOfAllNames(g: Graph, names: seq<Name>)
    requires Mirrored(g) && forall n :: n in names <==> n in g.entries
    ensures Closure(g, names) == g.entries.Keys
    ensures forall d :: !PhantomRoot(g, names, d)
  {
    forall n | n in g.entries ensures n in Closure(g, names) { RootIsAffected(g, names, n); }
  }

  /** A plan over the whole graph. */
  method PlanEverything(g: Graph) returns (order: seq<Name>)
    requires Mirrored(g) && forall n :: !InCycle(g, n)
    ensures IsPlan(g, g.entries.Keys, order)
  {
    var names := AscendingElements(g.entries.Keys);
    ClosureOfAllNames(g, names);
    var everything := WalkCascade(g, names);
    assert everything.Ok?;
    order := everything.value;
  }

  /** Incremental rebuild refines full rebuild: on an acyclic graph, walking the cascade from the
      edited artifacts and rebuilding along its plan never fails, and gives the same contents as
      building everything from scratch. */
  method IncrementalMatchesScratch<S(!new), C(!new)>(g: Graph, ghost oldG: Graph, render: Render<S, C>,
        digest: C -> Hash, ghost oldSources: map<Name, S>, sources: map<Name, S>, prior: map<Name, C>,
        roots: seq<Name>)
    returns (incremental: map<Name, C>, scratch: map<Name, C>, rendered: set<Name>)
    requires Mirrored(g) && forall n :: !InCycle(g, n)
    requires Edited(oldG, g, render, oldSources, sources, prior, roots)
    requires forall full | Built(g, render, sources, full) :: Distinguishes(digest, g, roots, prior, full)
    ensures incremental == scratch && Built(g, render, sources, incremental)
    ensures forall full | Built(g, render, sources, full) :: full == incremental
    ensures forall n | n in g.entries && !Affected(g, roots, n) :: UpToDate(prior, incremental, n)
    ensures forall n :: n in rendered <==> n in g.entries && Stale(g, roots, prior, incremental, n)
  {
    var plan := WalkCascade(g, roots);
    var order := PlanEverything(g);
    scratch := BuildFromScratch(g, render, sources, order);
    ghost var quiet := set n | n in g.entries && !Affected(g, roots, n);
    UnaffectedIsQuiet(oldG, g, render, oldSources, sources, prior, roots, quiet);
    forall n | n in g.entries && !Affected(g, roots, n) ensures UpToDate(prior, scratch, n) {
      assert n in order;
      var k :| 0 <= k < |order| && order[k] == n;
      QuietIsUpToDate(oldG, g, render, oldSources, sources, prior, scratch, quiet, order, k);
    }
    incremental, rendered := Rebuild(g, oldG, render, digest, oldSources, sources, prior, scratch, roots, plan.value);
    forall n | n in g.entries && Stale(g, roots, prior, scratch, n) ensures n in plan.value {
      StaleIsAffected(g, roots, prior, scratch, n);
    }
    forall n | n in plan.value ensures n in g.entries {
      PlannedIsEntry(g, roots, plan.value, n);
    }
    forall full | Built(g, render, sources, full) ensures full == incremental {
      BuiltIsUnique(g, render, sources, order, full, incremental);
    }
  }
}
