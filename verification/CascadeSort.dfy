/** Kahn's sort over the closure and the walker built from both
    (`edda-codegen/src/graph.rs`, `kahn_sort` and `walk_cascade`). */
module CascadeSort {
  import opened Bytes
  import opened Manifests
  import opened CascadeGraph
  import opened CascadeWalk

  // ----- Counting occurrences -----

  /** Occurrences in `s` of members of `t`: `iter().filter(..).count()`. */
  function CountIn(s: seq<Name>, t: set<Name>): nat {
    if s == [] then 0
    else CountIn(s[..|s| - 1], t) + (if s[|s| - 1] in t then 1 else 0)
  }

  lemma {:induction false} CountInRemove(s: seq<Name>, t: set<Name>, x: Name)
    requires x in t
    ensures CountIn(s, t) == CountIn(s, t - {x}) + multiset(s)[x]
  {
    if s != [] {
      CountInRemove(s[..|s| - 1], t, x);
      assert s == s[..|s| - 1] + [s[|s| - 1]];
    }
  }

  lemma {:induction false} CountInZero(s: seq<Name>, t: set<Name>)
    ensures CountIn(s, t) == 0 <==> forall x | x in s :: x !in t
  {
    if s != [] {
      CountInZero(s[..|s| - 1], t);
      assert s == s[..|s| - 1] + [s[|s| - 1]];
    }
  }

  // ----- The sort -----

  /** Nodes of the subgraph whose consumers have not been released. */
  ghost function Open(g: Graph, sub: set<Name>, order: seq<Name>): set<Name> {
    set n | n in sub && !(n in order && n in g.entries)
  }

  /** Every dependency inside the subgraph comes strictly before its consumer. */
  ghost predicate DepsFirst(g: Graph, sub: set<Name>, order: seq<Name>) {
    forall i, d | 0 <= i < |order| && d in g.DependenciesOf(order[i]) && d in sub ::
      d in order[..i] && d in g.entries
  }

  ghost predicate Queued(sub: set<Name>, degree: map<Name, nat>, order: seq<Name>, ready: seq<Name>) {
    && degree.Keys == sub
    && NoDuplicates(order + ready)
    && (forall n | n in order :: n in sub)
    && (forall n | n in ready :: n in sub)
    && (forall n | n in sub :: degree[n] == 0 <==> n in order || n in ready)
  }

  /** The in-degree of a node is the number of its dependency occurrences that are still open, plus
      its occurrences in `left`, the consumers of the current node not yet visited. */
  ghost predicate Accounted(g: Graph, sub: set<Name>, degree: map<Name, nat>, order: seq<Name>, left: seq<Name>)
    requires degree.Keys == sub
  {
    forall n | n in sub :: degree[n] == CountIn(g.DependenciesOf(n), Open(g, sub, order)) + multiset(left)[n]
  }

  method InitialDegrees(g: Graph, sub: set<Name>) returns (degree: map<Name, nat>, nodes: seq<Name>)
    ensures Ascending(nodes) && forall n :: n in nodes <==> n in sub
    ensures degree.Keys == sub
    ensures forall n | n in sub :: degree[n] == CountIn(g.DependenciesOf(n), sub)
  {
    degree := map[];
    nodes := AscendingElements(sub);
    for k := 0 to |nodes|
      invariant degree.Keys == set i | 0 <= i < k :: nodes[i]
      invariant forall n | n in degree :: degree[n] == CountIn(g.DependenciesOf(n), sub)
    {
      degree := degree[nodes[k] := CountIn(g.DependenciesOf(nodes[k]), sub)];
    }
  }

  /** The nodes of in-degree zero, in ascending order. */
  method InitiallyReady(sub: set<Name>, degree: map<Name, nat>, nodes: seq<Name>) returns (ready: seq<Name>)
    requires degree.Keys == sub && Ascending(nodes) && forall n :: n in nodes <==> n in sub
    ensures Queued(sub, degree, [], ready)
  {
    ready := [];
    for k := 0 to |nodes|
      invariant NoDuplicates(ready)
      invariant forall n | n in ready :: n in nodes[..k]
      invariant forall n | n in nodes[..k] :: degree[n] == 0 <==> n in ready
    {
      AscendingNoDuplicates(nodes);
      assert nodes[..k + 1] == nodes[..k] + [nodes[k]];
      if degree[nodes[k]] == 0 { ready := ready + [nodes[k]]; }
    }
    assert nodes[..|nodes|] == nodes;
    assert [] + ready == ready;
  }

  lemma AccountForConsumer(g: Graph, sub: set<Name>, degree: map<Name, nat>, order: seq<Name>, left: seq<Name>)
    requires left != [] && degree.Keys == sub && Accounted(g, sub, degree, order, left)
    ensures left[0] in sub ==> degree[left[0]] > 0
    ensures var degree' := if left[0] in sub then degree[left[0] := degree[left[0]] - 1] else degree;
            degree'.Keys == sub && Accounted(g, sub, degree', order, left[1..])
  {
    assert left == [left[0]] + left[1..];
  }

  lemma QueueReleased(sub: set<Name>, degree: map<Name, nat>, order: seq<Name>, ready: seq<Name>, c: Name)
    requires Queued(sub, degree, order, ready) && c in sub && degree[c] > 0
    ensures var degree' := degree[c := degree[c] - 1];
            Queued(sub, degree', order, if degree'[c] == 0 then ready + [c] else ready)
  {
    if degree[c] == 1 {
      var old', new' := order + ready, order + (ready + [c]);
      assert new' == old' + [c];
      assert c !in old';
    }
  }

  /** Decrement every consumer of the popped node once per reverse edge; queue those that reach zero.
      `saturating_sub` never saturates here. */
  method ReleaseConsumers(g: Graph, sub: set<Name>, degree: map<Name, nat>, ghost order: seq<Name>,
                          ready: seq<Name>, consumers: seq<Name>)
    returns (degree': map<Name, nat>, ready': seq<Name>)
    requires Queued(sub, degree, order, ready) && Accounted(g, sub, degree, order, consumers)
    ensures Queued(sub, degree', order, ready') && Accounted(g, sub, degree', order, [])
  {
    degree', ready' := degree, ready;
    for k := 0 to |consumers|
      invariant Queued(sub, degree', order, ready')
      invariant Accounted(g, sub, degree', order, consumers[k..])
    {
      var consumer := consumers[k];
      AccountForConsumer(g, sub, degree', order, consumers[k..]);
      assert consumers[k..][1..] == consumers[k + 1..];
      if consumer in sub {
        QueueReleased(sub, degree', order, ready', consumer);
        degree' := degree'[consumer := degree'[consumer] - 1];
        if degree'[consumer] == 0 { ready' := ready' + [consumer]; }
      }
    }
    assert consumers[|consumers|..] == [];
  }

  lemma OpenAfterPop(g: Graph, sub: set<Name>, order: seq<Name>, node: Name)
    requires node in sub && node !in order
    ensures Open(g, sub, order + [node])
         == if node in g.entries then Open(g, sub, order) - {node} else Open(g, sub, order)
  {
    assert forall n :: n in order + [node] <==> n in order || n == node;
  }

  lemma PopAccountsFor(g: Graph, sub: set<Name>, order: seq<Name>, node: Name, n: Name)
    requires Mirrored(g) && node in sub && node !in order
    ensures CountIn(g.DependenciesOf(n), Open(g, sub, order))
         == CountIn(g.DependenciesOf(n), Open(g, sub, order + [node])) + multiset(g.ConsumersOf(node))[n]
  {
    OpenAfterPop(g, sub, order, node);
    assert multiset(g.ConsumersOf(node))[n]
        == if node in g.entries then multiset(g.DependenciesOf(n))[node] else 0;
    if node in g.entries { CountInRemove(g.DependenciesOf(n), Open(g, sub, order), node); }
  }

  lemma PopAccounts(g: Graph, sub: set<Name>, degree: map<Name, nat>, order: seq<Name>, node: Name)
    requires Mirrored(g) && degree.Keys == sub && node in sub && node !in order
    requires Accounted(g, sub, degree, order, [])
    ensures Accounted(g, sub, degree, order + [node], g.ConsumersOf(node))
  {
    forall n | n in sub
      ensures degree[n] == CountIn(g.DependenciesOf(n), Open(g, sub, order + [node]))
                           + multiset(g.ConsumersOf(node))[n]
    {
      PopAccountsFor(g, sub, order, node, n);
    }
  }

  lemma PopKeepsQueue(sub: set<Name>, degree: map<Name, nat>, order: seq<Name>, ready: seq<Name>)
    requires ready != [] && Queued(sub, degree, order, ready)
    ensures ready[0] in sub && ready[0] !in order
    ensures Queued(sub, degree, order + [ready[0]], ready[1..])
  {
    var node := ready[0];
    assert order + [node] + ready[1..] == order + ready;
    assert ready == [node] + ready[1..];
    assert (order + ready)[|order|] == node;
    forall i | 0 <= i < |order| ensures order[i] != node { assert (order + ready)[i] == order[i]; }
  }

  lemma PopKeepsDepsFirst(g: Graph, sub: set<Name>, degree: map<Name, nat>, order: seq<Name>, node: Name)
    requires degree.Keys == sub && node in sub && degree[node] == 0
    requires Accounted(g, sub, degree, order, []) && DepsFirst(g, sub, order)
    ensures DepsFirst(g, sub, order + [node])
  {
    CountInZero(g.DependenciesOf(node), Open(g, sub, order));
    var order' := order + [node];
    forall i, d | 0 <= i < |order'| && d in g.DependenciesOf(order'[i]) && d in sub
      ensures d in order'[..i] && d in g.entries
    {
      if i < |order| {
        assert order'[i] == order[i] && order'[..i] == order[..i];
      } else {
        assert order'[..i] == order;
      }
    }
  }

  lemma OrderWithin(sub: set<Name>, degree: map<Name, nat>, order: seq<Name>, ready: seq<Name>)
    requires Queued(sub, degree, order, ready)
    ensures NoDuplicates(order) && Elements(order) <= sub && |order| == |Elements(order)| <= |sub|
  {
    forall i, j | 0 <= i < j < |order| ensures order[i] != order[j] {
      assert (order + ready)[i] == order[i] && (order + ready)[j] == order[j];
    }
    NoDuplicatesSize(order);
    SubsetSize(Elements(order), sub);
  }

  /** Main loop of `kahn_sort`: ends with every node of in-degree zero in the order. */
  method Drain(g: Graph, sub: set<Name>, degree: map<Name, nat>, ready: seq<Name>)
    returns (order: seq<Name>, ghost degree': map<Name, nat>)
    requires Mirrored(g) && Queued(sub, degree, [], ready) && Accounted(g, sub, degree, [], [])
    ensures Queued(sub, degree', order, []) && Accounted(g, sub, degree', order, []) && DepsFirst(g, sub, order)
  {
    order := [];
    var deg, queue := degree, ready;
    while queue != []
      invariant Queued(sub, deg, order, queue) && Accounted(g, sub, deg, order, [])
      invariant DepsFirst(g, sub, order)
      decreases |sub| - |order|
    {
      var node := queue[0];
      PopKeepsQueue(sub, deg, order, queue);
      PopAccounts(g, sub, deg, order, node);
      PopKeepsDepsFirst(g, sub, deg, order, node);
      order := order + [node];
      OrderWithin(sub, deg, order, queue[1..]);
      deg, queue := ReleaseConsumers(g, sub, deg, order, queue[1..], g.ConsumersOf(node));
    }
    degree' := deg;
  }

  // ----- What is left over -----

  ghost predicate OpenDep(g: Graph, sub: set<Name>, order: seq<Name>, n: Name, d: Name) {
    d in g.DependenciesOf(n) && d in sub && !(d in order && d in g.entries)
  }

  ghost predicate Stuck(g: Graph, sub: set<Name>, order: seq<Name>) {
    forall n | n in sub && n !in order :: exists d :: OpenDep(g, sub, order, n, d)
  }

  /** A node outside the final order still has an open dependency. */
  lemma LeftoversAreStuck(g: Graph, sub: set<Name>, degree: map<Name, nat>, order: seq<Name>)
    requires Queued(sub, degree, order, []) && Accounted(g, sub, degree, order, [])
    ensures Stuck(g, sub, order)
  {
    forall n | n in sub && n !in order ensures exists d :: OpenDep(g, sub, order, n, d) {
      CountInZero(g.DependenciesOf(n), Open(g, sub, order));
      assert degree[n] != 0;
      var d :| d in g.DependenciesOf(n) && d in Open(g, sub, order);
      assert OpenDep(g, sub, order, n, d);
    }
  }

  lemma RoomLeft(sub: set<Name>, q: seq<Name>)
    requires NoDuplicates(q) && forall i | 0 <= i < |q| :: q[i] in sub
    ensures |q| <= |sub|
  {
    NoDuplicatesSize(q);
    SubsetSize(Elements(q), sub);
  }

  lemma RepeatIsCycle(g: Graph, sub: set<Name>, q: seq<Name>, i: nat)
    requires WalkIn(g, sub, q) && 0 < i < |q| && q[i] == q[0]
    ensures OnCycle(g, sub, q[0])
  {
    var cycle := q[..i + 1];
    forall j | 0 < j < |cycle| ensures cycle[j] in g.ConsumersOf(cycle[j - 1]) { assert cycle[j] == q[j]; }
    assert CycleAt(g, sub, cycle, q[0]);
  }

  /** Walk backwards through open dependencies; nodes are finite, so the walk meets a phantom
      dependency or itself. */
  lemma {:induction false} LeftoverIsBlocked(g: Graph, sub: set<Name>, order: seq<Name>, p: seq<Name>)
    requires Mirrored(g) && WalkIn(g, sub, p) && NoDuplicates(p) && p[0] !in order
    ensures Stuck(g, sub, order) ==> Blocked(g, sub, p[|p| - 1])
    decreases |sub| - |p|
  {
    if Stuck(g, sub, order) {
      var d :| OpenDep(g, sub, order, p[0], d);
      if d !in g.entries {
        assert BlockedBy(g, sub, p, p[|p| - 1]);
      } else {
        ConsumersAreEntries(g, d, p[0]);
        var q := [d] + p;
        assert WalkIn(g, sub, q);
        if d in p {
          var i :| 0 <= i < |p| && p[i] == d;
          RepeatIsCycle(g, sub, q, i + 1);
          assert BlockedBy(g, sub, q, p[|p| - 1]);
        } else {
          RoomLeft(sub, q);
          LeftoverIsBlocked(g, sub, order, q);
        }
      }
    }
  }

  /** Going backwards along a walk that ends in the order, positions strictly fall. */
  lemma {:induction false} WalkDescends(g: Graph, sub: set<Name>, order: seq<Name>, p: seq<Name>, k: nat)
    returns (j: nat)
    requires Mirrored(g) && DepsFirst(g, sub, order) && WalkIn(g, sub, p)
    requires k < |order| && order[k] == p[|p| - 1]
    ensures j <= k && order[j] == p[0] && (|p| > 1 ==> j < k)
    decreases |p|
  {
    if |p| == 1 {
      j := k;
    } else {
      var d := p[|p| - 2];
      ConsumersAreEntries(g, d, p[|p| - 1]);
      var i :| 0 <= i < k && order[i] == d;
      var q := p[..|p| - 1];
      assert WalkIn(g, sub, q) by {
        forall m | 0 < m < |q| ensures q[m] in g.ConsumersOf(q[m - 1]) { assert q[m] == p[m]; }
      }
      j := WalkDescends(g, sub, order, q, i);
    }
  }

  lemma OrderedIsNotObstructed(g: Graph, sub: set<Name>, order: seq<Name>, j: nat)
    requires Mirrored(g) && DepsFirst(g, sub, order) && NoDuplicates(order) && j < |order|
    ensures !Obstructed(g, sub, order[j])
  {
    if OnCycle(g, sub, order[j]) {
      var c :| CycleAt(g, sub, c, order[j]);
      var i := WalkDescends(g, sub, order, c, j);
      assert false;
    }
  }

  lemma OrderedIsNotBlocked(g: Graph, sub: set<Name>, order: seq<Name>, n: Name)
    requires Mirrored(g) && DepsFirst(g, sub, order) && NoDuplicates(order) && n in order
    ensures !Blocked(g, sub, n)
  {
    if Blocked(g, sub, n) {
      var p :| BlockedBy(g, sub, p, n);
      var k :| 0 <= k < |order| && order[k] == n;
      var j := WalkDescends(g, sub, order, p, k);
      OrderedIsNotObstructed(g, sub, order, j);
      assert false;
    }
  }

  /** Exactly the blocked nodes of the subgraph stay out of the final order. */
  lemma OrderedIffNotBlocked(g: Graph, sub: set<Name>, degree: map<Name, nat>, order: seq<Name>, n: Name)
    requires Mirrored(g) && Queued(sub, degree, order, []) && Accounted(g, sub, degree, order, [])
    requires DepsFirst(g, sub, order) && n in sub
    ensures n in order <==> !Blocked(g, sub, n)
  {
    OrderWithin(sub, degree, order, []);
    if n in order {
      OrderedIsNotBlocked(g, sub, order, n);
    } else {
      assert WalkIn(g, sub, [n]) && NoDuplicates([n]);
      LeftoversAreStuck(g, sub, degree, order);
      LeftoverIsBlocked(g, sub, order, [n]);
    }
  }

  // ----- kahn_sort and walk_cascade -----

  /** A duplicate-free listing of `sub`, dependencies first. */
  ghost predicate IsPlan(g: Graph, sub: set<Name>, order: seq<Name>) {
    && NoDuplicates(order)
    && (forall n :: n in order <==> n in sub)
    && DepsFirst(g, sub, order)
  }

  /** `kahn_sort` on any subgraph: it succeeds exactly when nothing is blocked, and otherwise reports
      exactly the blocked nodes, ascending. */
  method KahnSort(g: Graph, sub: set<Name>) returns (r: Result<seq<Name>, seq<Name>>)
    requires Mirrored(g)
    ensures r.Ok? <==> forall n | n in sub :: !Blocked(g, sub, n)
    ensures r.Ok? ==> IsPlan(g, sub, r.value)
    ensures r.Err? ==> Ascending(r.error) && forall n :: n in r.error <==> n in sub && Blocked(g, sub, n)
  {
    var degree, nodes := InitialDegrees(g, sub);
    var ready := InitiallyReady(sub, degree, nodes);
    assert Open(g, sub, []) == sub;
    var order, degree' := Drain(g, sub, degree, ready);
    OrderCharacterised(g, sub, degree', order);
    if |order| != |sub| {
      var involved := FilterOut(nodes, order);
      r := Err(involved);
    } else {
      r := Ok(order);
    }
  }

  lemma OrderCharacterised(g: Graph, sub: set<Name>, degree: map<Name, nat>, order: seq<Name>)
    requires Mirrored(g) && Queued(sub, degree, order, []) && Accounted(g, sub, degree, order, [])
    requires DepsFirst(g, sub, order)
    ensures NoDuplicates(order) && forall n | n in order :: n in sub
    ensures forall n | n in sub :: n in order <==> !Blocked(g, sub, n)
    ensures |order| == |sub| <==> forall n | n in sub :: n in order
  {
    forall n | n in sub ensures n in order <==> !Blocked(g, sub, n) {
      OrderedIffNotBlocked(g, sub, degree, order, n);
    }
    OrderWithin(sub, degree, order, []);
    SubsetSize(Elements(order), sub);
    assert (forall n | n in sub :: n in order) <==> Elements(order) == sub;
  }

  /** `subgraph.iter().filter(|n| !order.contains(n))`. */
  method FilterOut(nodes: seq<Name>, order: seq<Name>) returns (rest: seq<Name>)
    requires Ascending(nodes)
    ensures Ascending(rest) && forall n :: n in rest <==> n in nodes && n !in order
  {
    rest := [];
    for k := 0 to |nodes|
      invariant Ascending(rest)
      invariant forall i, j | 0 <= i < |rest| && k <= j < |nodes| :: Less(rest[i], nodes[j])
      invariant forall n :: n in rest <==> n in nodes[..k] && n !in order
    {
      assert nodes[..k + 1] == nodes[..k] + [nodes[k]];
      if nodes[k] !in order { rest := rest + [nodes[k]]; }
    }
    assert nodes[..|nodes|] == nodes;
  }

  // ----- walk_cascade -----

  ghost function Closure(g: Graph, roots: seq<Name>): (r: set<Name>) {
    set n | n in Elements(roots) + g.entries.Keys && Affected(g, roots, n)
  }

  lemma {:induction false} AffectedBounded(g: Graph, roots: seq<Name>, n: Name)
    requires Mirrored(g) && Affected(g, roots, n)
    ensures n in Closure(g, roots)
    ensures n in g.entries || n in roots
  {
    var p :| WalkFrom(g, roots, p) && p[|p| - 1] == n;
    if |p| > 1 { ConsumersAreEntries(g, p[|p| - 2], n); }
  }

  ghost predicate InCycle(g: Graph, n: Name) {
    exists p :: IsWalk(g, p) && |p| >= 2 && p[0] == n && p[|p| - 1] == n
  }

  /** Some affected node on a cycle reaches `n` through consumers. */
  ghost predicate CycleUpstream(g: Graph, roots: seq<Name>, n: Name) {
    exists p :: IsWalk(g, p) && Affected(g, roots, p[0]) && InCycle(g, p[0]) && p[|p| - 1] == n
  }

  /** A root outside the manifest that an affected node depends on. */
  ghost predicate PhantomRoot(g: Graph, roots: seq<Name>, d: Name) {
    d in roots && d !in g.entries && exists n :: Affected(g, roots, n) && d in g.DependenciesOf(n)
  }

  lemma ClosureIsClosed(g: Graph, roots: seq<Name>, p: seq<Name>)
    requires Mirrored(g) && IsWalk(g, p) && Affected(g, roots, p[0])
    ensures WalkIn(g, Closure(g, roots), p)
  {
    var sub := Closure(g, roots);
    forall n, c | n in sub && c in g.ConsumersOf(n) ensures c in sub {
      AffectedStep(g, roots, n, c);
      AffectedBounded(g, roots, c);
    }
    AffectedBounded(g, roots, p[0]);
    ClosedContainsWalks(g, sub, p);
  }

  lemma CycleInClosure(g: Graph, roots: seq<Name>, n: Name)
    requires Mirrored(g) && Affected(g, roots, n)
    ensures OnCycle(g, Closure(g, roots), n) <==> InCycle(g, n)
  {
    if InCycle(g, n) {
      var p :| IsWalk(g, p) && |p| >= 2 && p[0] == n && p[|p| - 1] == n;
      ClosureIsClosed(g, roots, p);
      assert CycleAt(g, Closure(g, roots), p, n);
    }
    if OnCycle(g, Closure(g, roots), n) {
      var p :| CycleAt(g, Closure(g, roots), p, n);
      assert IsWalk(g, p) && |p| >= 2;
    }
  }

  lemma BlockedInClosure(g: Graph, roots: seq<Name>, n: Name)
    requires Mirrored(g) && forall r | r in roots :: r in g.entries
    ensures Blocked(g, Closure(g, roots), n) <==> CycleUpstream(g, roots, n)
  {
    var sub := Closure(g, roots);
    if Blocked(g, sub, n) {
      var p :| BlockedBy(g, sub, p, n);
      CycleInClosure(g, roots, p[0]);
      assert !HasPhantomDep(g, sub, p[0]);
      assert IsWalk(g, p) && Affected(g, roots, p[0]) && InCycle(g, p[0]);
    }
    if CycleUpstream(g, roots, n) {
      var p :| IsWalk(g, p) && Affected(g, roots, p[0]) && InCycle(g, p[0]) && p[|p| - 1] == n;
      ClosureIsClosed(g, roots, p);
      CycleInClosure(g, roots, p[0]);
      assert BlockedBy(g, sub, p, n);
    }
  }

  /** The exact success condition, for any list of roots. */
  lemma NothingBlocked(g: Graph, roots: seq<Name>)
    requires Mirrored(g)
    ensures (forall n | n in Closure(g, roots) :: !Blocked(g, Closure(g, roots), n))
       <==> (forall n | Affected(g, roots, n) :: !InCycle(g, n)) && (forall d :: !PhantomRoot(g, roots, d))
  {
    var sub := Closure(g, roots);
    forall n | Affected(g, roots, n) && InCycle(g, n) ensures n in sub && Blocked(g, sub, n) {
      AffectedBounded(g, roots, n);
      CycleInClosure(g, roots, n);
      assert BlockedBy(g, sub, [n], n);
    }
    forall d | PhantomRoot(g, roots, d) ensures exists n :: n in sub && Blocked(g, sub, n) {
      var n :| Affected(g, roots, n) && d in g.DependenciesOf(n);
      AffectedBounded(g, roots, n);
      assert WalkFrom(g, roots, [d]) && [d][0] == d;
      AffectedBounded(g, roots, d);
      assert HasPhantomDep(g, sub, n);
      assert BlockedBy(g, sub, [n], n);
    }
    forall n | n in sub && Blocked(g, sub, n)
      ensures (exists c :: Affected(g, roots, c) && InCycle(g, c)) || (exists d :: PhantomRoot(g, roots, d))
    {
      var p :| BlockedBy(g, sub, p, n);
      CycleInClosure(g, roots, p[0]);
      if HasPhantomDep(g, sub, p[0]) {
        var d :| d in g.DependenciesOf(p[0]) && d in sub && d !in g.entries;
        AffectedBounded(g, roots, d);
        assert PhantomRoot(g, roots, d);
      }
    }
  }

  /** `walk_cascade`. On success the plan lists exactly the affected artifacts, each once, every
      dependency among them before its consumers. It succeeds exactly when no affected artifact is
      on a cycle and no affected artifact depends on a root outside the manifest; when all roots are
      entries, the error names exactly the affected artifacts on or downstream of a cycle. */
  method WalkCascade(g: Graph, roots: seq<Name>) returns (r: Result<seq<Name>, seq<Name>>)
    requires Mirrored(g)
    ensures r.Ok? <==> (forall n | Affected(g, roots, n) :: !InCycle(g, n)) && forall d :: !PhantomRoot(g, roots, d)
    ensures r.Ok? ==> IsPlan(g, Closure(g, roots), r.value) && forall n :: n in r.value <==> Affected(g, roots, n)
    ensures r.Err? ==> Ascending(r.error)
    ensures r.Err? && (forall d | d in roots :: d in g.entries) ==>
              forall n :: n in r.error <==> CycleUpstream(g, roots, n)
    ensures r.Err? ==> forall n :: n in r.error <==> Blocked(g, Closure(g, roots), n)
  {
    var subgraph := CollectReverseReachable(g, roots);
    assert subgraph == Closure(g, roots) by {
      forall n | Affected(g, roots, n) ensures n in Closure(g, roots) { AffectedBounded(g, roots, n); }
    }
    r := KahnSort(g, subgraph);
    NothingBlocked(g, roots);
    forall n | Blocked(g, subgraph, n) ensures n in subgraph { var p :| BlockedBy(g, subgraph, p, n); }
    if forall d | d in roots :: d in g.entries {
      forall n ensures Blocked(g, subgraph, n) <==> CycleUpstream(g, roots, n) { BlockedInClosure(g, roots, n); }
    }
  }

  // ----- What a root outside the manifest does -----

  ghost function PhantomGraph(e: ArtifactEntry): Graph {
    Graph(map[e.shortName := e.nestedDeps], map[e.shortName := []], map[e.shortName := e])
  }

  lemma SingleEntryLists(d: Name, e: ArtifactEntry)
    requires e.shortName != d && e.nestedDeps == [d]
    ensures DeclaredDeps([e], e.shortName) == [d]
    ensures DeclaredConsumers([e], e.shortName) == []
  {
    var one, c := [e], e.shortName;
    assert one[..|one| - 1] == [];
    assert DeclaredDeps(one, c) == DeclaredDeps([], c) + [d];
    var deps := [d];
    assert deps[..|deps| - 1] == [];
    assert OncePer(c, deps, c) == OncePer(c, [], c) + [];
    assert DeclaredConsumers(one, c) == DeclaredConsumers([], c) + OncePer(c, deps, c);
  }

  lemma SingleEntryNames(e: ArtifactEntry)
    ensures ShortNames([e]) == {e.shortName}
    ensures IsLastNamed([e], e.shortName, e)
  {
    assert [e][0] == e;
  }

  lemma PhantomGraphIndexes(d: Name, e: ArtifactEntry)
    requires e.shortName != d && e.nestedDeps == [d]
    ensures Indexes(PhantomGraph(e), [e])
  {
    SingleEntryLists(d, e);
    SingleEntryNames(e);
    var g := PhantomGraph(e);
    assert g.entries.Keys == {e.shortName};
    assert g.forward.Keys == {e.shortName};
    assert g.reverse.Keys == {e.shortName};
  }

  /** One artifact whose only dependency `d` was never recorded, with both named as roots: the graph
      has no cycle at all, yet the artifact is never released and the walk reports it. */
  lemma PhantomRootBlocksAcyclicGraph(d: Name, e: ArtifactEntry)
    requires e.shortName != d && e.nestedDeps == [d]
    ensures var g, roots := PhantomGraph(e), [d, e.shortName];
            && Mirrored(g)
            && (forall n :: !InCycle(g, n))
            && PhantomRoot(g, roots, d)
            && Blocked(g, Closure(g, roots), e.shortName)
  {
    var g, roots, c := PhantomGraph(e), [d, e.shortName], e.shortName;
    PhantomGraphIndexes(d, e);
    IndexedGraphIsMirrored(g, [e]);
    forall p ensures IsWalk(g, p) ==> |p| < 2 {
      assert IsWalk(g, p) && |p| >= 2 ==> p[1] in g.ConsumersOf(p[0]);
    }
    assert WalkFrom(g, roots, [c]) && [c][0] == c;
    assert WalkFrom(g, roots, [d]) && [d][0] == d;
    AffectedBounded(g, roots, c);
    AffectedBounded(g, roots, d);
    assert d in g.DependenciesOf(c);
    assert HasPhantomDep(g, Closure(g, roots), c);
    assert BlockedBy(g, Closure(g, roots), [c], c);
  }
}
