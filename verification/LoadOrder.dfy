/**
 The order in which the packaged dynamic libraries are initialised: Kahn's algorithm over
 hash maps, whose iteration order is left arbitrary.
 */
module LoadOrder {
  import opened Wrappers

  datatype Node = Node(name: string, dependencies: seq<string>)

  datatype Outcome = Ok(order: seq<nat>) | Err(name: string)

  /** `source` has to be loaded before `target`. */
  datatype Edge = Edge(source: nat, target: nat)

  const USR_LIB := "/usr/lib/"

  function StripPrefix(path: string): string {
    if USR_LIB <= path then path[|USR_LIB|..] else path
  }

  /** The index that stands for a name: the last node carrying it. */
  function NodeToIndex(graph: seq<Node>): (index: map<string, nat>)
    ensures forall name <- index :: index[name] < |graph| && graph[index[name]].name == name
    ensures forall i | 0 <= i < |graph| :: graph[i].name in index && i <= index[graph[i].name]
  {
    if graph == [] then map[]
    else NodeToIndex(graph[..|graph| - 1])[Last(graph).name := |graph| - 1]
  }

  /** The nodes that are sorted: one for each name. */
  ghost function Indices(graph: seq<Node>): set<nat> {
    set i: nat | i < |graph| && NodeToIndex(graph)[graph[i].name] == i
  }

  /** Some node that `v` stands for lists, with or without the prefix, the name `u` stands for. */
  ghost predicate DependsOn(graph: seq<Node>, u: nat, v: nat) {
    exists k, d :: 0 <= k < |graph| && 0 <= d < |graph[k].dependencies| && Lists(graph, k, d, u, v)
  }

  ghost predicate Lists(graph: seq<Node>, k: int, d: int, u: nat, v: nat)
    requires 0 <= k < |graph| && 0 <= d < |graph[k].dependencies|
  {
    var dependency := StripPrefix(graph[k].dependencies[d]);
    var index := NodeToIndex(graph);
    index[graph[k].name] == v && dependency in index && index[dependency] == u
  }

  /** The path of a dependency means the library `name`: below the prefix that names lack, or bare. */
  ghost predicate Means(path: string, name: string) {
    path == "/usr/lib/" + name || (path == name && !("/usr/lib/" <= name))
  }

  /** No later node has the same name. */
  ghost predicate IsLastNamed(graph: seq<Node>, i: nat) {
    i < |graph| && forall j :: i < j < |graph| ==> graph[j].name != graph[i].name
  }

  ghost predicate ListsName(graph: seq<Node>, k: int, d: int, u: nat, v: nat)
    requires 0 <= k < |graph| && 0 <= d < |graph[k].dependencies| && u < |graph| && v < |graph|
  {
    graph[k].name == graph[v].name && Means(graph[k].dependencies[d], graph[u].name)
  }

  /** Of the nodes with one name the last is sorted. */
  lemma SortedExactly(graph: seq<Node>, i: nat)
    ensures i in Indices(graph) <==> IsLastNamed(graph, i)
  {
    if i < |graph| {
      var last := NodeToIndex(graph)[graph[i].name];
      assert graph[last].name == graph[i].name;
    }
  }

  lemma StripsExactly(path: string, name: string)
    ensures StripPrefix(path) == name <==> Means(path, name)
  {
    if USR_LIB <= path {
      assert path == USR_LIB + path[|USR_LIB|..];
    }
    assert (USR_LIB + name)[|USR_LIB|..] == name;
  }

  /**
   `u` has to be loaded before `v` exactly when both stand for their names and a node with the name
   of `v` lists `u` by its name or by that name below "/usr/lib/".
   */
  lemma DependsOnExactly(graph: seq<Node>, u: nat, v: nat)
    ensures DependsOn(graph, u, v) <==>
      && IsLastNamed(graph, u) && IsLastNamed(graph, v)
      && exists k, d :: 0 <= k < |graph| && 0 <= d < |graph[k].dependencies| && ListsName(graph, k, d, u, v)
  {
    SortedExactly(graph, u);
    SortedExactly(graph, v);
    forall k, d | 0 <= k < |graph| && 0 <= d < |graph[k].dependencies|
      ensures Lists(graph, k, d, u, v) <==>
        IsLastNamed(graph, u) && IsLastNamed(graph, v) && ListsName(graph, k, d, u, v)
    {
      hide Means, StripPrefix;
      var path := graph[k].dependencies[d];
      if u < |graph| { StripsExactly(path, graph[u].name); }
    }
  }

  ghost function Before(graph: seq<Node>): (nat, nat) -> bool {
    (u: nat, v: nat) => DependsOn(graph, u, v)
  }

  /** Every node on the walk has to be loaded before the next one. */
  ghost predicate IsWalk(before: (nat, nat) -> bool, walk: seq<nat>) {
    forall i :: 0 <= i < |walk| - 1 ==> before(walk[i], walk[i + 1])
  }

  ghost predicate HasCycle(graph: seq<Node>) {
    exists walk: seq<nat> :: |walk| >= 2 && IsWalk(Before(graph), walk) && walk[0] == Last(walk)
  }

  /** `v` lies on a cycle or depends, through any number of steps, on a node of one. */
  ghost predicate BelowCycle(graph: seq<Node>, v: nat) {
    exists walk: seq<nat> :: |walk| >= 2 && IsWalk(Before(graph), walk) && walk[0] in walk[1..] && Last(walk) == v
  }

  /** No node comes twice, and each comes after everything it depends on. */
  ghost predicate DependenciesFirst(graph: seq<Node>, order: seq<nat>) {
    && Distinct(order)
    && forall k, u :: 0 <= k < |order| && DependsOn(graph, u, order[k]) ==> u in order[..k]
  }

  /** All the sorted nodes, once each, and every dependency before its dependents. */
  ghost predicate IsLoadOrder(graph: seq<Node>, order: seq<nat>) {
    ToSet(order) == Indices(graph) && DependenciesFirst(graph, order)
  }

  ghost function ToSet(s: seq<nat>): set<nat> {
    set v | v in s
  }

  // ---------------------------------------------------------------- counting edges

  /** How many edges lead to `v` from nodes outside `done`. */
  ghost function Remaining(edges: seq<Edge>, v: nat, done: set<nat>): nat {
    if edges == [] then 0
    else
      Remaining(edges[..|edges| - 1], v, done) +
      if Last(edges).target == v && Last(edges).source !in done then 1 else 0
  }

  /** The targets of the edges leaving `u`, in order. */
  ghost function Targets(edges: seq<Edge>, u: nat): seq<nat> {
    if edges == [] then []
    else
      Targets(edges[..|edges| - 1], u) + if Last(edges).source == u then [Last(edges).target] else []
  }

  lemma {:induction false} RemainingStep(edges: seq<Edge>, v: nat, done: set<nat>, u: nat)
    requires u !in done
    ensures Remaining(edges, v, done) == Remaining(edges, v, done + {u}) + multiset(Targets(edges, u))[v]
  {
    if edges != [] {
      RemainingStep(edges[..|edges| - 1], v, done, u);
    }
  }

  lemma {:induction false} RemainingZero(edges: seq<Edge>, v: nat, done: set<nat>)
    ensures Remaining(edges, v, done) == 0 <==> forall e <- edges :: e.target == v ==> e.source in done
  {
    if edges != [] {
      RemainingZero(edges[..|edges| - 1], v, done);
      assert edges == edges[..|edges| - 1] + [Last(edges)];
    }
  }

  lemma {:induction false} TargetsAreTargets(edges: seq<Edge>, u: nat)
    ensures forall w <- Targets(edges, u) :: Edge(u, w) in edges
  {
    if edges != [] {
      TargetsAreTargets(edges[..|edges| - 1], u);
    }
  }

  // ---------------------------------------------------------------- the graph

  /** The edges recorded after `k` nodes and `d` dependencies of the next one. */
  ghost predicate EdgesUpTo(graph: seq<Node>, edges: seq<Edge>, k: nat, d: nat)
    requires k <= |graph|
  {
    && (forall e <- edges :: DependsOn(graph, e.source, e.target))
    && (forall k', d', u: nat, v: nat | 0 <= k' < |graph| && 0 <= d' < |graph[k'].dependencies| ::
          (k' < k || (k' == k && d' < d)) && Lists(graph, k', d', u, v) ==> Edge(u, v) in edges)
  }

  ghost predicate Tables(nodes: set<nat>, edges: seq<Edge>, dependents: map<nat, seq<nat>>, inDegrees: map<nat, nat>) {
    && inDegrees.Keys == nodes
    && (forall u: nat :: (if u in dependents then dependents[u] else []) == Targets(edges, u))
    && (forall v <- inDegrees :: inDegrees[v] == Remaining(edges, v, {}))
  }

  ghost predicate EdgesAre(graph: seq<Node>, edges: seq<Edge>) {
    forall u: nat, v: nat {:trigger Edge(u, v)} :: Edge(u, v) in edges <==> DependsOn(graph, u, v)
  }

  lemma TablesStart(nodes: set<nat>)
    ensures Tables(nodes, [], map[], map v | v in nodes :: 0)
  {
  }

  /** Recording one more edge in both tables. */
  lemma RecordEdge(
    nodes: set<nat>, edges: seq<Edge>, dependents: map<nat, seq<nat>>, inDegrees: map<nat, nat>, e: Edge)
    requires Tables(nodes, edges, dependents, inDegrees) && e.target in nodes
    ensures
      var known := if e.source in dependents then dependents[e.source] else [];
      Tables(nodes, edges + [e], dependents[e.source := known + [e.target]],
             inDegrees[e.target := inDegrees[e.target] + 1])
  {
    assert (edges + [e])[..|edges|] == edges;
    var known := if e.source in dependents then dependents[e.source] else [];
    var dependents' := dependents[e.source := known + [e.target]];
    forall u: nat ensures (if u in dependents' then dependents'[u] else []) == Targets(edges + [e], u) {
      assert Targets(edges, u) == if u in dependents then dependents[u] else [];
    }
  }

  /** Dependency `d` of node `k` yields its edge when its name is packaged and nothing otherwise. */
  lemma EdgesAdvance(graph: seq<Node>, edges: seq<Edge>, k: nat, d: nat)
    requires k < |graph| && d < |graph[k].dependencies| && EdgesUpTo(graph, edges, k, d)
    ensures
      var index := NodeToIndex(graph);
      var dependency := StripPrefix(graph[k].dependencies[d]);
      EdgesUpTo(graph,
                edges + (if dependency in index then [Edge(index[dependency], index[graph[k].name])] else []),
                k, d + 1)
  {
    hide NodeToIndex, StripPrefix;
    var index := NodeToIndex(graph);
    var dependency := StripPrefix(graph[k].dependencies[d]);
    if dependency in index {
      assert Lists(graph, k, d, index[dependency], index[graph[k].name]);
      NewEdgeDepends(graph, k, d, edges, Edge(index[dependency], index[graph[k].name]));
    } else {
      assert edges + [] == edges;
    }
  }

  lemma NewEdgeDepends(graph: seq<Node>, k: nat, d: nat, edges: seq<Edge>, e: Edge)
    requires k < |graph| && d < |graph[k].dependencies| && Lists(graph, k, d, e.source, e.target)
    requires forall f <- edges :: DependsOn(graph, f.source, f.target)
    ensures forall f <- edges + [e] :: DependsOn(graph, f.source, f.target)
  {
    hide Lists;
    assert DependsOn(graph, e.source, e.target);
    hide DependsOn;
  }

  /** The bookkeeping at the start, from one node to the next, and at the end. */
  lemma EdgesBoundary(graph: seq<Node>, edges: seq<Edge>, k: nat)
    requires k <= |graph|
    ensures k == 0 && edges == [] ==> EdgesUpTo(graph, edges, k, 0)
    ensures k < |graph| && EdgesUpTo(graph, edges, k, |graph[k].dependencies|) ==> EdgesUpTo(graph, edges, k + 1, 0)
    ensures k == |graph| && EdgesUpTo(graph, edges, k, 0) ==> EdgesAre(graph, edges)
  {
  }

  lemma DependsWithin(graph: seq<Node>, u: nat, v: nat)
    requires DependsOn(graph, u, v)
    ensures u in Indices(graph) && v in Indices(graph)
  {
  }

  /** The map from names to indices, filled node by node. */
  method BuildIndex(graph: seq<Node>) returns (nodeToIndex: map<string, nat>)
    ensures nodeToIndex == NodeToIndex(graph) && nodeToIndex.Values == Indices(graph)
  {
    nodeToIndex := map[];
    for i := 0 to |graph|
      invariant nodeToIndex == NodeToIndex(graph[..i])
    {
      nodeToIndex := nodeToIndex[graph[i].name := i];
      assert graph[..i + 1][..i] == graph[..i];
    }
    assert graph[..|graph|] == graph;
  }

  /** The tables hold exactly the edges of the graph. */
  ghost predicate Recorded(graph: seq<Node>, edges: seq<Edge>, dependents: map<nat, seq<nat>>, inDegrees: map<nat, nat>) {
    Tables(Indices(graph), edges, dependents, inDegrees) && EdgesAre(graph, edges)
  }

  /** Fills the two tables from the dependency lists. */
  method BuildTables(graph: seq<Node>)
    returns (dependents: map<nat, seq<nat>>, inDegrees: map<nat, nat>)
    ensures exists edges :: Recorded(graph, edges, dependents, inDegrees)
  {
    var nodeToIndex := BuildIndex(graph);
    hide *;
    dependents := map[];
    ghost var edges: seq<Edge> := [];
    inDegrees := map i | i in nodeToIndex.Values :: 0;
    TablesStart(nodeToIndex.Values);
    EdgesBoundary(graph, edges, 0);
    for k := 0 to |graph|
      invariant inDegrees.Keys == nodeToIndex.Values && Tables(Indices(graph), edges, dependents, inDegrees)
      invariant EdgesUpTo(graph, edges, k, 0)
    {
      var binIndex := nodeToIndex[graph[k].name];
      assert binIndex in Indices(graph);
      for d := 0 to |graph[k].dependencies|
        invariant inDegrees.Keys == nodeToIndex.Values && Tables(Indices(graph), edges, dependents, inDegrees)
        invariant EdgesUpTo(graph, edges, k, d)
      {
        var dependency := StripPrefix(graph[k].dependencies[d]);
        EdgesAdvance(graph, edges, k, d);
        if dependency in nodeToIndex {
          var dylibIndex := nodeToIndex[dependency];
          ghost var e := Edge(dylibIndex, binIndex);
          RecordEdge(Indices(graph), edges, dependents, inDegrees, e);
          dependents := dependents[dylibIndex :=
            (if dylibIndex in dependents then dependents[dylibIndex] else []) + [binIndex]];
          inDegrees := inDegrees[binIndex := inDegrees[binIndex] + 1];
          edges := edges + [e];
        } else {
          assert edges + [] == edges;
        }
      }
      EdgesBoundary(graph, edges, k);
    }
    EdgesBoundary(graph, edges, |graph|);
    IsRecorded(graph, edges, dependents, inDegrees);
  }

  lemma IsRecorded(graph: seq<Node>, edges: seq<Edge>, dependents: map<nat, seq<nat>>, inDegrees: map<nat, nat>)
    requires Tables(Indices(graph), edges, dependents, inDegrees) && EdgesAre(graph, edges)
    ensures Recorded(graph, edges, dependents, inDegrees)
  {
  }

  // ---------------------------------------------------------------- the sort

  /** What holds whenever the next node is popped: `order` is done, `queue` is ready. */
  ghost predicate Sorting(nodes: set<nat>, edges: seq<Edge>, inDegrees: map<nat, nat>, order: seq<nat>, queue: seq<nat>) {
    && inDegrees.Keys == nodes
    && Distinct(order + queue)
    && (forall v: nat :: v in order + queue <==> v in nodes && inDegrees[v] == 0)
    && (forall v <- nodes :: inDegrees[v] == Remaining(edges, v, ToSet(order)))
    && (forall k, e :: 0 <= k < |order| && e in edges && e.target == order[k] ==> e.source in order[..k])
  }

  /** The same while the dependents `rest` of the node just popped are still to be visited. */
  ghost predicate Visiting(
    nodes: set<nat>, edges: seq<Edge>, inDegrees: map<nat, nat>, order: seq<nat>, queue: seq<nat>, rest: seq<nat>)
  {
    && inDegrees.Keys == nodes
    && (forall w <- rest :: w in nodes)
    && Distinct(order + queue)
    && (forall v: nat :: v in order + queue <==> v in nodes && inDegrees[v] == 0)
    && (forall v <- nodes :: inDegrees[v] == Remaining(edges, v, ToSet(order)) + multiset(rest)[v])
    && (forall k, e :: 0 <= k < |order| && e in edges && e.target == order[k] ==> e.source in order[..k])
  }

  /** Popping a ready node keeps the invariant, with its dependents still to be visited. */
  lemma PopReady(nodes: set<nat>, edges: seq<Edge>, inDegrees: map<nat, nat>, order: seq<nat>, queue: seq<nat>)
    requires Sorting(nodes, edges, inDegrees, order, queue) && queue != []
    requires forall e <- edges :: e.source in nodes && e.target in nodes
    ensures Visiting(nodes, edges, inDegrees, order + [queue[0]], queue[1..], Targets(edges, queue[0]))
    ensures queue[0] in nodes && queue[0] !in order
  {
    var u := queue[0];
    assert order + [u] + queue[1..] == order + queue;
    assert (order + queue)[|order|] == u;
    var done := ToSet(order);
    assert ToSet(order + [u]) == done + {u};
    assert u !in order by {
      forall i | 0 <= i < |order| ensures order[i] != u { assert (order + queue)[i] == order[i]; }
    }
    forall v <- nodes { RemainingStep(edges, v, done, u); }
    TargetsAreTargets(edges, u);
    RemainingZero(edges, u, done);
    assert forall k | 0 <= k < |order| :: (order + [u])[..k] == order[..k];
  }

  /** Visiting one dependent: its in-degree drops, and at zero it becomes ready. */
  lemma VisitDependent(
    nodes: set<nat>, edges: seq<Edge>, inDegrees: map<nat, nat>, order: seq<nat>, queue: seq<nat>, rest: seq<nat>)
    requires Visiting(nodes, edges, inDegrees, order, queue, rest) && rest != []
    ensures rest[0] in inDegrees && inDegrees[rest[0]] > 0
    ensures
      var degree := inDegrees[rest[0]] - 1;
      Visiting(nodes, edges, inDegrees[rest[0] := degree], order,
               queue + (if degree == 0 then [rest[0]] else []), rest[1..])
  {
    var w := rest[0];
    assert rest == [w] + rest[1..];
    assert multiset(rest)[w] > 0;
    var degree := inDegrees[w] - 1;
    var queue' := queue + if degree == 0 then [w] else [];
    assert w !in order + queue;
    assert order + queue' == order + queue + if degree == 0 then [w] else [];
  }

  /**
   Every execution, whatever order the maps are iterated in, ends with a load order or with a
   set of stuck nodes each of which waits for another one of them.
   */
  method Sort(
    nodes: set<nat>, ghost edges: seq<Edge>, dependents: map<nat, seq<nat>>, initialInDegrees: map<nat, nat>)
    returns (order: seq<nat>, inDegrees: map<nat, nat>)
    requires Tables(nodes, edges, dependents, initialInDegrees)
    requires forall e <- edges :: e.source in nodes && e.target in nodes
    ensures Sorting(nodes, edges, inDegrees, order, [])
  {
    hide Sorting, Visiting, Tables, Targets, Distinct, ToSet, Remaining;
    inDegrees := initialInDegrees;
    order := [];
    TablesFacts(nodes, edges, dependents, initialInDegrees);
    var leafNodes := LeafNodes(nodes, inDegrees);
    SortingStart(nodes, edges, dependents, inDegrees, leafNodes);
    while leafNodes != []
      invariant Sorting(nodes, edges, inDegrees, order, leafNodes)
      decreases nodes - ToSet(order)
    {
      var node := leafNodes[0];
      PopReady(nodes, edges, inDegrees, order, leafNodes);
      LeftShrinks(nodes, order, node);
      leafNodes := leafNodes[1..];
      order := order + [node];
      if node in dependents {
        var waiting := dependents[node];
        assert waiting[0..] == waiting;
        for k := 0 to |waiting|
          invariant Visiting(nodes, edges, inDegrees, order, leafNodes, waiting[k..])
        {
          var dependant := waiting[k];
          assert waiting[k..][0] == dependant && waiting[k..][1..] == waiting[k + 1..];
          VisitDependent(nodes, edges, inDegrees, order, leafNodes, waiting[k..]);
          inDegrees := inDegrees[dependant := inDegrees[dependant] - 1];
          if inDegrees[dependant] == 0 {
            leafNodes := leafNodes + [dependant];
          } else {
            assert leafNodes + [] == leafNodes;
          }
        }
        assert waiting[|waiting|..] == [];
      }
      AllVisited(nodes, edges, inDegrees, order, leafNodes);
    }
  }

  /** The nodes that wait for nothing, in an arbitrary order. */
  method LeafNodes(nodes: set<nat>, inDegrees: map<nat, nat>) returns (leafNodes: seq<nat>)
    requires inDegrees.Keys == nodes
    ensures Distinct(leafNodes) && forall v :: v in leafNodes <==> v in nodes && inDegrees[v] == 0
  {
    leafNodes := [];
    var unseen := nodes;
    while unseen != {}
      invariant unseen <= nodes && Distinct(leafNodes)
      invariant forall v :: v in leafNodes <==> v in nodes - unseen && inDegrees[v] == 0
    {
      var v :| v in unseen;
      if inDegrees[v] == 0 {
        leafNodes := leafNodes + [v];
      }
      unseen := unseen - {v};
    }
  }

  lemma TablesFacts(nodes: set<nat>, edges: seq<Edge>, dependents: map<nat, seq<nat>>, inDegrees: map<nat, nat>)
    requires Tables(nodes, edges, dependents, inDegrees)
    ensures inDegrees.Keys == nodes
    ensures forall u: nat :: (if u in dependents then dependents[u] else []) == Targets(edges, u)
  {
  }

  lemma SortingStart(
    nodes: set<nat>, edges: seq<Edge>, dependents: map<nat, seq<nat>>, inDegrees: map<nat, nat>, leafNodes: seq<nat>)
    requires Tables(nodes, edges, dependents, inDegrees)
    requires Distinct(leafNodes) && forall v :: v in leafNodes <==> v in nodes && inDegrees[v] == 0
    ensures Sorting(nodes, edges, inDegrees, [], leafNodes)
  {
    assert [] + leafNodes == leafNodes && ToSet([]) == {};
  }

  lemma LeftShrinks(nodes: set<nat>, order: seq<nat>, node: nat)
    requires node in nodes && node !in order
    ensures nodes - ToSet(order + [node]) < nodes - ToSet(order)
  {
    assert node in nodes - ToSet(order) && node in order + [node];
  }

  lemma AllVisited(nodes: set<nat>, edges: seq<Edge>, inDegrees: map<nat, nat>, order: seq<nat>, queue: seq<nat>)
    requires Visiting(nodes, edges, inDegrees, order, queue, [])
    ensures Sorting(nodes, edges, inDegrees, order, queue)
  {
  }

  // ---------------------------------------------------------------- completeness

  /** `v` waits for a stuck node. */
  ghost predicate Waits(before: (nat, nat) -> bool, stuck: set<nat>, v: nat) {
    exists u <- stuck :: before(u, v)
  }

  lemma ExtendWalk(before: (nat, nat) -> bool, u: nat, walk: seq<nat>)
    requires |walk| > 0 && IsWalk(before, walk) && before(u, walk[0])
    ensures IsWalk(before, [u] + walk) && Last([u] + walk) == Last(walk) && ([u] + walk)[1..] == walk
    ensures u !in walk && Distinct(walk) ==> Distinct([u] + walk)
  {
  }

  /** Going back from predecessor to predecessor inside a finite set meets some node twice. */
  lemma {:induction false} WalkBack(before: (nat, nat) -> bool, stuck: set<nat>, walk: seq<nat>)
    returns (longer: seq<nat>)
    requires forall v <- stuck :: Waits(before, stuck, v)
    requires |walk| > 0 && Distinct(walk) && IsWalk(before, walk) && forall v <- walk :: v in stuck
    ensures |longer| >= 2 && IsWalk(before, longer) && longer[0] in longer[1..] && Last(longer) == Last(walk)
    decreases |stuck| - |walk|
  {
    assert Waits(before, stuck, walk[0]);
    var u :| u in stuck && before(u, walk[0]);
    hide Distinct, IsWalk, Waits;
    longer := [u] + walk;
    ExtendWalk(before, u, walk);
    if u !in walk {
      DistinctFits(longer, stuck);
      longer := WalkBack(before, stuck, longer);
    }
  }

  lemma {:induction false} DistinctFits(s: seq<nat>, within: set<nat>)
    requires Distinct(s) && forall v <- s :: v in within
    ensures |s| <= |within|
  {
    if s != [] {
      var rest := s[1..];
      assert forall v <- rest :: v in within - {s[0]};
      DistinctFits(rest, within - {s[0]});
    }
  }

  /** A walk whose first node occurs again starts with a cycle. */
  lemma RepeatGivesCycle(graph: seq<Node>, v: nat)
    requires BelowCycle(graph, v)
    ensures HasCycle(graph)
  {
    var walk: seq<nat> :| |walk| >= 2 && IsWalk(Before(graph), walk) && walk[0] in walk[1..] && Last(walk) == v;
    var k :| 1 <= k < |walk| && walk[k] == walk[0];
    var cycle := walk[..k + 1];
    assert |cycle| >= 2 && IsWalk(Before(graph), cycle) && cycle[0] == Last(cycle);
  }

  /** Along a walk the positions in the order increase. */
  lemma {:induction false} WalkAdvances(graph: seq<Node>, order: seq<nat>, walk: seq<nat>, i: nat, j: nat, at: nat)
    returns (from: nat)
    requires DependenciesFirst(graph, order) && IsWalk(Before(graph), walk)
    requires i <= j < |walk| && at < |order| && order[at] == walk[j]
    ensures from + j - i <= at && order[from] == walk[i]
    decreases j - i
  {
    from := at;
    if i < j {
      assert Before(graph)(walk[j - 1], walk[j]);
      var previous: nat :| previous < at && order[previous] == walk[j - 1];
      hide *;
      from := WalkAdvances(graph, order, walk, i, j - 1, previous);
    }
  }

  lemma FirstAgain(walk: seq<nat>) returns (k: nat)
    requires |walk| >= 2 && walk[0] in walk[1..]
    ensures 1 <= k < |walk| && walk[k] == walk[0]
  {
    var i: nat :| i < |walk[1..]| && walk[1..][i] == walk[0];
    k := i + 1;
  }

  /** A node below a cycle is never put in the order. */
  lemma OrderedIsNotBelowCycle(graph: seq<Node>, order: seq<nat>, v: nat)
    requires DependenciesFirst(graph, order) && v in order
    ensures !BelowCycle(graph, v)
  {
    assert Distinct(order);
    hide DependenciesFirst, DependsOn, IsWalk;
    if BelowCycle(graph, v) {
      var walk: seq<nat> :| |walk| >= 2 && IsWalk(Before(graph), walk) && walk[0] in walk[1..] && Last(walk) == v;
      hide *;
      var k := FirstAgain(walk);
      var at: nat :| at < |order| && order[at] == v;
      var later := WalkAdvances(graph, order, walk, k, |walk| - 1, at);
      var earlier := WalkAdvances(graph, order, walk, 0, k, later);
    }
  }

  /** Every node on a cycle is below one. */
  lemma CycleIsBelowItself(graph: seq<Node>, walk: seq<nat>)
    requires |walk| >= 2 && IsWalk(Before(graph), walk) && walk[0] == Last(walk)
    ensures BelowCycle(graph, Last(walk)) && Last(walk) in Indices(graph)
  {
    assert walk[1..][|walk| - 2] == walk[0];
    assert Before(graph)(walk[|walk| - 2], Last(walk));
    DependsWithin(graph, walk[|walk| - 2], Last(walk));
  }

  /** A graph with a load order has no cycle. */
  lemma LoadOrderExcludesCycle(graph: seq<Node>, order: seq<nat>)
    requires IsLoadOrder(graph, order)
    ensures !HasCycle(graph)
  {
    if HasCycle(graph) {
      var walk: seq<nat> :| |walk| >= 2 && IsWalk(Before(graph), walk) && walk[0] == Last(walk);
      CycleIsBelowItself(graph, walk);
      OrderedIsNotBelowCycle(graph, order, Last(walk));
    }
  }

  /** With distinct names the sorted nodes are all of them. */
  lemma DistinctNamesSortAll(graph: seq<Node>)
    requires forall i, j :: 0 <= i < j < |graph| ==> graph[i].name != graph[j].name
    ensures forall i: nat :: i in Indices(graph) <==> i < |graph|
  {
    forall i: nat | i < |graph| ensures i in Indices(graph) {
      var last := NodeToIndex(graph)[graph[i].name];
      assert graph[last].name == graph[i].name;
    }
  }

  /** What the sort leaves behind: an order, and in-degrees that are zero on it. */
  ghost predicate Finished(graph: seq<Node>, inDegrees: map<nat, nat>, order: seq<nat>) {
    && inDegrees.Keys == Indices(graph)
    && DependenciesFirst(graph, order)
    && forall v <- inDegrees :: inDegrees[v] == 0 <==> v in order
  }

  /** A node that stays out of the order waits for another one that does. */
  lemma SortingEnds(graph: seq<Node>, edges: seq<Edge>, inDegrees: map<nat, nat>, order: seq<nat>)
    requires Sorting(Indices(graph), edges, inDegrees, order, []) && EdgesAre(graph, edges)
    ensures Finished(graph, inDegrees, order)
    ensures
      var stuck := set w | w in inDegrees && inDegrees[w] > 0;
      forall v <- stuck :: Waits(Before(graph), stuck, v)
    ensures (forall v <- inDegrees :: inDegrees[v] == 0) ==> IsLoadOrder(graph, order)
  {
    assert order + [] == order;
    var stuck := set w | w in inDegrees && inDegrees[w] > 0;
    forall v <- stuck ensures Waits(Before(graph), stuck, v) {
      RemainingZero(edges, v, ToSet(order));
      var e :| e in edges && e.target == v && e.source !in ToSet(order);
      assert Edge(e.source, e.target) == e;
      DependsWithin(graph, e.source, v);
      assert e.source in stuck;
    }
    forall k, u: nat | 0 <= k < |order| && DependsOn(graph, u, order[k]) ensures u in order[..k] {
      assert Edge(u, order[k]) in edges;
    }
    if forall v <- inDegrees :: inDegrees[v] == 0 {
      assert ToSet(order) == Indices(graph);
    }
  }

  /** The nodes left with a positive in-degree are exactly those on or below a cycle. */
  lemma StuckExactlyBelowCycle(graph: seq<Node>, inDegrees: map<nat, nat>, order: seq<nat>, v: nat)
    requires Finished(graph, inDegrees, order) && v in inDegrees
    requires
      var stuck := set w | w in inDegrees && inDegrees[w] > 0;
      forall v <- stuck :: Waits(Before(graph), stuck, v)
    ensures inDegrees[v] > 0 <==> BelowCycle(graph, v)
  {
    if inDegrees[v] > 0 {
      var walk := WalkBack(Before(graph), set w | w in inDegrees && inDegrees[w] > 0, [v]);
    } else {
      OrderedIsNotBelowCycle(graph, order, v);
    }
  }

  ghost predicate OnCycle(graph: seq<Node>, v: nat) {
    exists walk: seq<nat> :: |walk| >= 2 && IsWalk(Before(graph), walk) && walk[0] == Last(walk) == v
  }

  /** Whatever depends directly on a node of a cycle is on a cycle itself. */
  ghost predicate CyclesClosed(graph: seq<Node>) {
    forall u: nat, w: nat :: OnCycle(graph, u) && DependsOn(graph, u, w) ==> OnCycle(graph, w)
  }

  /** A cycle and one step more. */
  lemma WalkBelow(before: (nat, nat) -> bool, cycle: seq<nat>, w: nat)
    requires |cycle| >= 2 && IsWalk(before, cycle) && cycle[0] == Last(cycle) && before(Last(cycle), w)
    ensures
      var walk := cycle + [w];
      IsWalk(before, walk) && walk[0] in walk[1..] && Last(walk) == w
  {
    var walk := cycle + [w];
    assert walk[1..][|cycle| - 2] == walk[0];
  }

  lemma DependentIsBelowCycle(graph: seq<Node>, u: nat, w: nat)
    requires OnCycle(graph, u) && DependsOn(graph, u, w)
    ensures BelowCycle(graph, w) && w in Indices(graph)
  {
    DependsWithin(graph, u, w);
    hide DependsOn, IsWalk, Indices;
    var cycle: seq<nat> :| |cycle| >= 2 && IsWalk(Before(graph), cycle) && cycle[0] == Last(cycle) == u;
    WalkBelow(Before(graph), cycle, w);
    assert |cycle + [w]| >= 2;
  }

  lemma {:induction false} WalkStaysOnCycles(graph: seq<Node>, walk: seq<nat>, i: nat)
    requires CyclesClosed(graph) && IsWalk(Before(graph), walk) && i < |walk| && OnCycle(graph, walk[0])
    ensures OnCycle(graph, walk[i])
  {
    if i > 0 {
      hide DependsOn, OnCycle;
      WalkStaysOnCycles(graph, walk, i - 1);
      assert Before(graph)(walk[i - 1], walk[i]);
    }
  }

  /**
   Whichever node the error names, it is on a cycle, exactly when nothing outside the cycles depends
   directly on a node of one.
   */
  lemma NamedNodeOnCycle(graph: seq<Node>, inDegrees: map<nat, nat>, order: seq<nat>)
    requires Finished(graph, inDegrees, order)
    requires
      var stuck := set w | w in inDegrees && inDegrees[w] > 0;
      forall v <- stuck :: Waits(Before(graph), stuck, v)
    ensures (forall v <- inDegrees :: inDegrees[v] > 0 ==> OnCycle(graph, v)) <==> CyclesClosed(graph)
  {
    if forall v <- inDegrees :: inDegrees[v] > 0 ==> OnCycle(graph, v) {
      forall u: nat, w: nat | OnCycle(graph, u) && DependsOn(graph, u, w) ensures OnCycle(graph, w) {
        DependentIsBelowCycle(graph, u, w);
        StuckExactlyBelowCycle(graph, inDegrees, order, w);
      }
    }
    if CyclesClosed(graph) {
      forall v <- inDegrees | inDegrees[v] > 0 ensures OnCycle(graph, v) {
        StuckExactlyBelowCycle(graph, inDegrees, order, v);
        hide Finished, CyclesClosed, BelowCycle;
        BelowClosedCycles(graph, v);
      }
    }
  }

  lemma BelowClosedCycles(graph: seq<Node>, v: nat)
    requires CyclesClosed(graph) && BelowCycle(graph, v)
    ensures OnCycle(graph, v)
  {
    hide CyclesClosed, DependsOn;
    var walk: seq<nat> :| |walk| >= 2 && IsWalk(Before(graph), walk) && walk[0] in walk[1..] && Last(walk) == v;
    var k :| 1 <= k < |walk| && walk[k] == walk[0];
    var cycle := walk[..k + 1];
    assert |cycle| >= 2 && IsWalk(Before(graph), cycle) && cycle[0] == Last(cycle) == walk[0];
    WalkStaysOnCycles(graph, walk, |walk| - 1);
  }

  lemma OnCycleHasDependent(graph: seq<Node>, v: nat)
    requires OnCycle(graph, v)
    ensures exists w: nat :: DependsOn(graph, v, w)
  {
    var cycle: seq<nat> :| |cycle| >= 2 && IsWalk(Before(graph), cycle) && cycle[0] == Last(cycle) == v;
    assert Before(graph)(cycle[0], cycle[1]);
  }

  const TAIL_OF_CYCLE := [Node("A", ["A"]), Node("B", ["A"])]

  lemma TailOfCycle()
    ensures Indices(TAIL_OF_CYCLE) == {0, 1}
    ensures DependsOn(TAIL_OF_CYCLE, 0, 0) && DependsOn(TAIL_OF_CYCLE, 0, 1)
    ensures forall w: nat :: !DependsOn(TAIL_OF_CYCLE, 1, w)
  {
    var a, b := Node("A", ["A"]), Node("B", ["A"]);
    var graph := [a, b];
    assert graph[..1] == [a] && [a][..0] == [] && NodeToIndex([a]) == map["A" := 0];
    assert NodeToIndex(graph) == map["A" := 0, "B" := 1];
    assert StripPrefix("A") == "A";
    assert Lists(graph, 0, 0, 0, 0) && Lists(graph, 1, 0, 0, 1);
  }

  /**
   The named node need not be on a cycle. Here B only depends on A, which depends on itself; the sort
   ends with both in-degrees positive, so the error may name B.
   */
  lemma NamedNodeMayBeOffCycle()
    ensures
      var graph := TAIL_OF_CYCLE;
      var inDegrees: map<nat, nat> := map[0 := 1, 1 := 1];
      && Finished(graph, inDegrees, [])
      && (var stuck := set w | w in inDegrees && inDegrees[w] > 0;
          forall v <- stuck :: Waits(Before(graph), stuck, v))
      && inDegrees[1] > 0
      && BelowCycle(graph, 1) && !OnCycle(graph, 1) && forall w: nat :: !DependsOn(graph, 1, w)
  {
    TailOfCycle();
    var graph := TAIL_OF_CYCLE;
    hide TAIL_OF_CYCLE, DependsOn, Indices;
    assert Before(graph)(0, 0) && Before(graph)(0, 1);
    var walk := [0, 0, 1];
    assert IsWalk(Before(graph), walk) && walk[1..] == [0, 1];
    if OnCycle(graph, 1) {
      OnCycleHasDependent(graph, 1);
    }
  }

  /**
   The result is an error exactly when the dependencies among the packaged libraries contain a
   cycle, and the node an error names depends on one; otherwise it is a load order.
   */
  method GenerateBinaryLoadOrder(graph: seq<Node>) returns (r: Outcome)
    ensures r.Err? <==> HasCycle(graph)
    ensures r.Ok? ==> IsLoadOrder(graph, r.order)
    ensures r.Err? ==> exists v :: v in Indices(graph) && graph[v].name == r.name && BelowCycle(graph, v)
  {
    var dependents, inDegrees := BuildTables(graph);
    ghost var edges: seq<Edge> :| Recorded(graph, edges, dependents, inDegrees);
    forall e <- edges ensures e.source in inDegrees && e.target in inDegrees {
      assert Edge(e.source, e.target) == e;
      DependsWithin(graph, e.source, e.target);
    }
    var order: seq<nat>;
    order, inDegrees := Sort(inDegrees.Keys, edges, dependents, inDegrees);
    SortingEnds(graph, edges, inDegrees, order);
    var stuck := set v | v in inDegrees && inDegrees[v] > 0;
    if stuck != {} {
      var index :| index in stuck;
      StuckExactlyBelowCycle(graph, inDegrees, order, index);
      RepeatGivesCycle(graph, index);
      r := Err(graph[index].name);
    } else {
      forall v <- inDegrees ensures inDegrees[v] == 0 { assert v !in stuck; }
      LoadOrderExcludesCycle(graph, order);
      r := Ok(order);
    }
  }
}
