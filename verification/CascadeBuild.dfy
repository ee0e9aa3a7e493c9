/** Rendering every artifact of a graph in dependency order.

    `render` is any function of an artifact's name, its own source and the contents of its dependencies. */
module CascadeBuild {
  import opened Bytes
  import opened Manifests
  import opened CascadeGraph
  import opened CascadeSort

  type Render<!S, !C> = (Name, S, seq<Option<C>>) -> C

  /** The contents of the dependencies of `deps`, `None` for one outside the build. */
  function Inputs<C>(deps: seq<Name>, contents: map<Name, C>): (r: seq<Option<C>>) {
    seq(|deps|, i requires 0 <= i < |deps| => if deps[i] in contents then Some(contents[deps[i]]) else None)
  }

  /** Input `i` is the content of dependency `i`. */
  lemma InputsAt<C>(deps: seq<Name>, contents: map<Name, C>, i: nat)
    requires i < |deps|
    ensures |Inputs(deps, contents)| == |deps|
    ensures deps[i] in contents ==> Inputs(deps, contents)[i] == Some(contents[deps[i]])
    ensures deps[i] !in contents ==> Inputs(deps, contents)[i] == None
  {
  }

  lemma InputsAgree<C>(deps: seq<Name>, a: map<Name, C>, b: map<Name, C>)
    requires forall d | d in deps :: (d in a <==> d in b) && (d in a ==> a[d] == b[d])
    ensures Inputs(deps, a) == Inputs(deps, b)
  {
    forall i | 0 <= i < |deps| ensures Inputs(deps, a)[i] == Inputs(deps, b)[i] { assert deps[i] in deps; }
  }

  ghost predicate Rendered<S, C(!new)>(g: Graph, render: Render<S, C>, sources: map<Name, S>, contents: map<Name, C>,
                                       n: Name)
    requires n in sources && n in contents
  {
    contents[n] == render(n, sources[n], Inputs(g.DependenciesOf(n), contents))
  }

  /** Every artifact's content is what its source and its dependencies' contents render to. */
  ghost predicate Built<S, C(!new)>(g: Graph, render: Render<S, C>, sources: map<Name, S>, contents: map<Name, C>) {
    && g.entries.Keys == sources.Keys == contents.Keys
    && forall n | n in contents :: Rendered(g, render, sources, contents, n)
  }

  // ----- Building from scratch -----

  ghost predicate BuiltUpTo<S, C(!new)>(g: Graph, render: Render<S, C>, sources: map<Name, S>,
                                        contents: map<Name, C>, order: seq<Name>, k: nat)
    requires k <= |order|
  {
    && (forall n :: n in contents <==> n in order[..k])
    && forall i | 0 <= i < k ::
         order[i] in sources && order[i] in contents && Rendered(g, render, sources, contents, order[i])
  }

  lemma PlannedDepsComeFirst(g: Graph, sub: set<Name>, plan: seq<Name>, k: nat, i: nat)
    requires IsPlan(g, sub, plan) && i <= k < |plan|
    ensures plan[k] !in g.DependenciesOf(plan[i])
  {
    assert plan[k] in plan;
    assert plan[k] !in plan[..i];
  }

  lemma NextInPrefix(plan: seq<Name>, k: nat)
    requires k < |plan|
    ensures plan[..k + 1] == plan[..k] + [plan[k]]
  {
  }

  lemma BuiltStep<S, C(!new)>(g: Graph, render: Render<S, C>, sources: map<Name, S>, contents: map<Name, C>,
                              order: seq<Name>, k: nat)
    requires IsPlan(g, g.entries.Keys, order) && sources.Keys == g.entries.Keys && k < |order|
    requires BuiltUpTo(g, render, sources, contents, order, k)
    ensures order[k] in sources
    ensures var n := order[k];
            BuiltUpTo(g, render, sources,
                      contents[n := render(n, sources[n], Inputs(g.DependenciesOf(n), contents))], order, k + 1)
  {
    var n := order[k];
    assert n in order;
    var contents' := contents[n := render(n, sources[n], Inputs(g.DependenciesOf(n), contents))];
    NextInPrefix(order, k);
    forall i | 0 <= i < k + 1
      ensures order[i] in sources && order[i] in contents' && Rendered(g, render, sources, contents', order[i])
    {
      PlannedDepsComeFirst(g, g.entries.Keys, order, k, i);
      InputsAgree(g.DependenciesOf(order[i]), contents, contents');
    }
  }

  method BuildFromScratch<S, C(!new)>(g: Graph, render: Render<S, C>, sources: map<Name, S>, order: seq<Name>)
    returns (contents: map<Name, C>)
    requires IsPlan(g, g.entries.Keys, order) && sources.Keys == g.entries.Keys
    ensures Built(g, render, sources, contents)
  {
    contents := map[];
    for k := 0 to |order|
      invariant BuiltUpTo(g, render, sources, contents, order, k)
    {
      BuiltStep(g, render, sources, contents, order, k);
      var n := order[k];
      contents := contents[n := render(n, sources[n], Inputs(g.DependenciesOf(n), contents))];
    }
    assert order[..|order|] == order;
  }

  lemma {:induction false} BuildsAgreeAt<S, C(!new)>(g: Graph, render: Render<S, C>, sources: map<Name, S>,
                                                     order: seq<Name>, k: nat, a: map<Name, C>, b: map<Name, C>)
    requires IsPlan(g, g.entries.Keys, order) && k < |order|
    requires Built(g, render, sources, a) && Built(g, render, sources, b)
    ensures order[k] in a && order[k] in b && a[order[k]] == b[order[k]]
    decreases k
  {
    forall i | 0 <= i < k ensures order[i] in a && order[i] in b && a[order[i]] == b[order[i]] {
      BuildsAgreeAt(g, render, sources, order, i, a, b);
    }
    EarlierDepsAgree(g, order, k, a, b);
    NodeAgrees(g, render, sources, a, b, order[k]);
  }

  /** When the whole graph can be ordered, sources determine contents. */
  lemma BuiltIsUnique<S, C(!new)>(g: Graph, render: Render<S, C>, sources: map<Name, S>, order: seq<Name>,
                                  a: map<Name, C>, b: map<Name, C>)
    requires IsPlan(g, g.entries.Keys, order) && Built(g, render, sources, a) && Built(g, render, sources, b)
    ensures a == b
  {
    forall i | 0 <= i < |order| ensures order[i] in a && order[i] in b && a[order[i]] == b[order[i]] {
      BuildsAgreeAt(g, render, sources, order, i, a, b);
    }
    AgreeEverywhere(order, a, b);
  }

  lemma NodeAgrees<S, C(!new)>(g: Graph, render: Render<S, C>, sources: map<Name, S>, a: map<Name, C>,
                               b: map<Name, C>, n: Name)
    requires Built(g, render, sources, a) && Built(g, render, sources, b) && n in g.entries
    requires forall d | d in g.DependenciesOf(n) && d in a :: d in b && a[d] == b[d]
    ensures a[n] == b[n]
  {
    InputsAgree(g.DependenciesOf(n), a, b);
    assert Rendered(g, render, sources, a, n) && Rendered(g, render, sources, b, n);
  }

  lemma EarlierDepsAgree<C>(g: Graph, order: seq<Name>, k: nat, a: map<Name, C>, b: map<Name, C>)
    requires IsPlan(g, g.entries.Keys, order) && k < |order| && a.Keys == b.Keys && a.Keys <= g.entries.Keys
    requires forall i | 0 <= i < k :: order[i] in a && order[i] in b && a[order[i]] == b[order[i]]
    ensures order[k] in g.entries && forall d | d in g.DependenciesOf(order[k]) && d in a :: d in b && a[d] == b[d]
  {
    assert order[k] in order;
    forall d | d in g.DependenciesOf(order[k]) && d in a ensures d in b && a[d] == b[d] {
      assert d in order[..k];
      var j :| 0 <= j < k && order[j] == d;
    }
  }

  lemma AgreeEverywhere<C>(order: seq<Name>, a: map<Name, C>, b: map<Name, C>)
    requires a.Keys == b.Keys && (forall n | n in a :: n in order)
    requires forall i | 0 <= i < |order| :: order[i] in a && order[i] in b && a[order[i]] == b[order[i]]
    ensures a == b
  {
  }
}
