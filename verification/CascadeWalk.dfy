/** Walks over the cascade graph and the breadth-first closure over consumers
    (`edda-codegen/src/graph.rs`, `collect_reverse_reachable`). */
module CascadeWalk {
  import opened Bytes
  import opened Manifests
  import opened CascadeGraph

  // ----- Walks along consumer edges -----

  ghost predicate IsWalk(g: Graph, p: seq<Name>) {
    p != [] && forall i | 0 < i < |p| :: p[i] in g.ConsumersOf(p[i - 1])
  }

  ghost predicate WalkIn(g: Graph, sub: set<Name>, p: seq<Name>) {
    IsWalk(g, p) && forall i | 0 <= i < |p| :: p[i] in sub
  }

  ghost predicate WalkFrom(g: Graph, roots: seq<Name>, p: seq<Name>) {
    IsWalk(g, p) && p[0] in roots
  }

  /** `n` is a root or a transitive consumer of one. */
  ghost predicate Affected(g: Graph, roots: seq<Name>, n: Name) {
    exists p :: WalkFrom(g, roots, p) && p[|p| - 1] == n
  }

  ghost predicate CycleAt(g: Graph, sub: set<Name>, p: seq<Name>, n: Name) {
    WalkIn(g, sub, p) && |p| >= 2 && p[0] == n && p[|p| - 1] == n
  }

  ghost predicate OnCycle(g: Graph, sub: set<Name>, n: Name) {
    exists p :: CycleAt(g, sub, p, n)
  }

  /** A dependency inside the subgraph that is no manifest entry: it has no reverse edge, so nothing
      ever releases its consumer. */
  ghost predicate HasPhantomDep(g: Graph, sub: set<Name>, n: Name) {
    exists d :: d in g.DependenciesOf(n) && d in sub && d !in g.entries
  }

  ghost predicate Obstructed(g: Graph, sub: set<Name>, n: Name) {
    OnCycle(g, sub, n) || HasPhantomDep(g, sub, n)
  }

  ghost predicate BlockedBy(g: Graph, sub: set<Name>, p: seq<Name>, n: Name) {
    WalkIn(g, sub, p) && Obstructed(g, sub, p[0]) && p[|p| - 1] == n
  }

  /** On, or downstream of, an obstruction. */
  ghost predicate Blocked(g: Graph, sub: set<Name>, n: Name) {
    exists p :: BlockedBy(g, sub, p, n)
  }

  /** A chain in the manifest: each name is that of an entry that lists the name before it. */
  ghost predicate ListedChain(artifacts: seq<ArtifactEntry>, p: seq<Name>) {
    p != [] && forall i | 0 < i < |p| :: Consumes(artifacts, p[i], p[i - 1])
  }

  lemma WalkIsListedChain(g: Graph, artifacts: seq<ArtifactEntry>, p: seq<Name>)
    requires Indexes(g, artifacts)
    ensures IsWalk(g, p) <==> ListedChain(artifacts, p)
  {
    forall i | 0 < i < |p| ensures p[i] in g.ConsumersOf(p[i - 1]) <==> Consumes(artifacts, p[i], p[i - 1]) {
      EdgesAreListed(g, artifacts, p[i], p[i - 1]);
    }
  }

  /** What is affected, in terms of the manifest alone. */
  lemma AffectedIffListed(g: Graph, artifacts: seq<ArtifactEntry>, roots: seq<Name>, n: Name)
    requires Indexes(g, artifacts)
    ensures Affected(g, roots, n) <==>
              exists p :: ListedChain(artifacts, p) && p[0] in roots && p[|p| - 1] == n
  {
    if Affected(g, roots, n) {
      var p :| WalkFrom(g, roots, p) && p[|p| - 1] == n;
      WalkIsListedChain(g, artifacts, p);
    }
    if p :| ListedChain(artifacts, p) && p[0] in roots && p[|p| - 1] == n {
      WalkIsListedChain(g, artifacts, p);
      assert WalkFrom(g, roots, p);
    }
  }

  lemma ConsumersAreEntries(g: Graph, d: Name, c: Name)
    requires Mirrored(g)
    ensures c in g.ConsumersOf(d) <==> d in g.entries && d in g.DependenciesOf(c)
    ensures c in g.ConsumersOf(d) ==> c in g.entries
  {
    assert c in g.ConsumersOf(d) <==> multiset(g.ConsumersOf(d))[c] > 0;
    assert d in g.DependenciesOf(c) <==> multiset(g.DependenciesOf(c))[d] > 0;
  }

  // ----- Breadth-first closure -----

  ghost predicate BfsState(g: Graph, roots: seq<Name>, visited: set<Name>, queue: seq<Name>) {
    && visited <= Elements(roots) + g.entries.Keys
    && (forall n | n in queue :: n in visited)
    && (forall n | n in visited :: Affected(g, roots, n))
  }

  ghost predicate Expanded(g: Graph, visited: set<Name>, queue: seq<Name>) {
    forall n, c | n in visited && n !in queue && c in g.ConsumersOf(n) :: c in visited
  }

  lemma AffectedStep(g: Graph, roots: seq<Name>, n: Name, c: Name)
    requires Affected(g, roots, n) && c in g.ConsumersOf(n)
    ensures Affected(g, roots, c)
  {
    var p :| WalkFrom(g, roots, p) && p[|p| - 1] == n;
    var q := p + [c];
    assert WalkFrom(g, roots, q) && q[|q| - 1] == c;
  }

  method EnqueueRoots(g: Graph, roots: seq<Name>) returns (visited: set<Name>, queue: seq<Name>)
    ensures BfsState(g, roots, visited, queue) && Expanded(g, visited, queue)
    ensures forall r | r in roots :: r in visited
  {
    visited, queue := {}, [];
    for k := 0 to |roots|
      invariant BfsState(g, roots, visited, queue)
      invariant forall n | n in visited :: n in queue
      invariant forall i | 0 <= i < k :: roots[i] in visited
    {
      if roots[k] !in visited {
        assert WalkFrom(g, roots, [roots[k]]) && [roots[k]][0] == roots[k];
        visited, queue := visited + {roots[k]}, queue + [roots[k]];
      }
    }
  }

  /** Body of the search loop for one popped node. */
  method EnqueueConsumers(g: Graph, roots: seq<Name>, visited: set<Name>, queue: seq<Name>, node: Name)
    returns (visited': set<Name>, queue': seq<Name>)
    requires Mirrored(g) && BfsState(g, roots, visited, queue) && node in visited
    ensures BfsState(g, roots, visited', queue') && visited <= visited'
    ensures forall c | c in g.ConsumersOf(node) :: c in visited'
    ensures |queue'| - |visited'| == |queue| - |visited|
    ensures queue <= queue' && forall n | n in visited' :: n in visited || n in queue'
  {
    visited', queue' := visited, queue;
    var consumers := g.ConsumersOf(node);
    for k := 0 to |consumers|
      invariant BfsState(g, roots, visited', queue') && visited <= visited'
      invariant forall i | 0 <= i < k :: consumers[i] in visited'
      invariant |queue'| - |visited'| == |queue| - |visited|
      invariant queue <= queue' && forall n | n in visited' :: n in visited || n in queue'
    {
      var consumer := consumers[k];
      if consumer !in visited' {
        AffectedStep(g, roots, node, consumer);
        ConsumersAreEntries(g, node, consumer);
        visited', queue' := visited' + {consumer}, queue' + [consumer];
      }
    }
  }

  lemma {:induction false} ClosedContainsWalks(g: Graph, visited: set<Name>, p: seq<Name>)
    requires IsWalk(g, p) && p[0] in visited
    requires forall n, c | n in visited && c in g.ConsumersOf(n) :: c in visited
    ensures forall i | 0 <= i < |p| :: p[i] in visited
  {
    if |p| > 1 {
      var q := p[..|p| - 1];
      assert forall i | 0 < i < |q| :: q[i] in g.ConsumersOf(q[i - 1]) by {
        forall i | 0 < i < |q| ensures q[i] in g.ConsumersOf(q[i - 1]) { assert q[i] == p[i]; }
      }
      ClosedContainsWalks(g, visited, q);
      assert p[|p| - 2] == q[|p| - 2];
      forall i | 0 <= i < |p| ensures p[i] in visited {
        if i < |q| { assert p[i] == q[i]; }
      }
    }
  }

  /** `collect_reverse_reachable`: exactly the roots and their transitive consumers. */
  method CollectReverseReachable(g: Graph, roots: seq<Name>) returns (visited: set<Name>)
    requires Mirrored(g)
    ensures forall n :: n in visited <==> Affected(g, roots, n)
  {
    var queue;
    visited, queue := EnqueueRoots(g, roots);
    ghost var universe := Elements(roots) + g.entries.Keys;
    while queue != []
      invariant BfsState(g, roots, visited, queue) && Expanded(g, visited, queue)
      invariant forall r | r in roots :: r in visited
      decreases |universe| - |visited|, |queue|
    {
      var node := queue[0];
      ghost var before, pending := visited, queue;
      var visited', queue' := EnqueueConsumers(g, roots, visited, queue[1..], node);
      SubsetSize(visited, visited');
      SubsetSize(visited', universe);
      assert Expanded(g, visited', queue') by {
        forall n, c | n in visited' && n !in queue' && c in g.ConsumersOf(n) ensures c in visited' {
          if n != node {
            assert queue[1..] <= queue';
            assert forall i | 0 < i < |queue| :: queue[i] == queue'[i - 1];
            assert n !in queue;
          }
        }
      }
      visited, queue := visited', queue';
    }
    forall n | Affected(g, roots, n) ensures n in visited {
      var p :| WalkFrom(g, roots, p) && p[|p| - 1] == n;
      ClosedContainsWalks(g, visited, p);
    }
  }
}
