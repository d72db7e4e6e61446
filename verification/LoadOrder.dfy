/** The load order of the app binary and its dynamic libraries: Kahn's algorithm over the
    dependency graph, with the reporting of cycles. */
module LoadOrder {
  import opened Common

  datatype Node = Node(name: string, dependencies: seq<string>)

  datatype Outcome = Sorted(order: seq<int>) | Cyclic(name: string)

  const LIBRARY_PREFIX := "/usr/lib/"

  function StripPrefix(path: string): string {
    if LIBRARY_PREFIX <= path then path[|LIBRARY_PREFIX|..] else path
  }

  // ----- What the graph means -----

  /** How a dependency may name a library: by its path in the library directory, or just so. */
  predicate Names(path: string, name: string) {
    path == "/usr/lib/" + name || (path == name && !("/usr/lib/" <= name))
  }

  lemma StrippingFindsName(path: string, name: string)
    ensures StripPrefix(path) == name <==> Names(path, name)
  {
    assert LIBRARY_PREFIX <= path ==> path == LIBRARY_PREFIX + path[|LIBRARY_PREFIX|..];
    assert (LIBRARY_PREFIX + name)[|LIBRARY_PREFIX|..] == name;
  }

  /** Of several nodes with one name, the last one stands for all of them. */
  ghost predicate Represents(graph: seq<Node>, i: int) {
    0 <= i < |graph| && forall k :: i < k < |graph| ==> graph[k].name != graph[i].name
  }

  /** Dependency `d` of node `k`, with or without the library directory, makes `i` depend on `j`. */
  ghost predicate Mentions(graph: seq<Node>, k: int, d: int, i: int, j: int) {
    && 0 <= k < |graph| && 0 <= d < |graph[k].dependencies|
    && Represents(graph, i) && graph[i].name == graph[k].name
    && Represents(graph, j) && Names(graph[k].dependencies[d], graph[j].name)
  }

  ghost predicate DependsOn(graph: seq<Node>, i: int, j: int) {
    exists k, d :: Mentions(graph, k, d, i, j)
  }

  /** One node depends on another exactly if one of its name lists the other's name, or its path in the library directory;
      a name that starts with that directory itself has to be listed with it once more. */
  lemma DependsByName(graph: seq<Node>, i: int, j: int)
    ensures DependsOn(graph, i, j) <==>
            && Represents(graph, i) && Represents(graph, j)
            && exists k :: 0 <= k < |graph| && graph[k].name == graph[i].name && ListsName(graph[k].dependencies, graph[j].name)
  {
    if Represents(graph, i) && Represents(graph, j) {
      forall k | 0 <= k < |graph| && graph[k].name == graph[i].name && ListsName(graph[k].dependencies, graph[j].name)
        ensures DependsOn(graph, i, j)
      {
        var path := if "/usr/lib/" + graph[j].name in graph[k].dependencies then "/usr/lib/" + graph[j].name else graph[j].name;
        var d :| 0 <= d < |graph[k].dependencies| && graph[k].dependencies[d] == path;
        assert Mentions(graph, k, d, i, j);
      }
    }
  }

  predicate ListsName(dependencies: seq<string>, name: string) {
    "/usr/lib/" + name in dependencies || (name in dependencies && !("/usr/lib/" <= name))
  }

  ghost predicate IsWalk(graph: seq<Node>, walk: seq<int>) {
    |walk| > 0 && forall i :: 0 < i < |walk| ==> DependsOn(graph, walk[i - 1], walk[i])
  }

  ghost predicate IsCycle(graph: seq<Node>, walk: seq<int>) {
    IsWalk(graph, walk) && |walk| > 1 && walk[0] == walk[|walk| - 1]
  }

  ghost predicate Acyclic(graph: seq<Node>) {
    forall walk :: !IsCycle(graph, walk)
  }

  /** `i` lies on a cycle or depends, directly or not, on a node that does. */
  ghost predicate ReachesCycle(graph: seq<Node>, i: int) {
    exists walk, cycle :: IsWalk(graph, walk) && IsCycle(graph, cycle) && walk[0] == i && walk[|walk| - 1] == cycle[0]
  }

  ghost predicate LiesOnCycle(graph: seq<Node>, i: int) {
    exists cycle :: IsCycle(graph, cycle) && cycle[0] == i
  }

  /** The nodes that cannot be sorted. */
  ghost function Stuck(graph: seq<Node>): set<int> {
    set i | 0 <= i < |graph| && Represents(graph, i) && ReachesCycle(graph, i)
  }

  ghost predicate Distinct(s: seq<int>) {
    forall i, j :: 0 <= i < j < |s| ==> s[i] != s[j]
  }

  /** Every node once, each after everything it depends on. */
  ghost predicate IsLoadOrder(graph: seq<Node>, order: seq<int>) {
    && Distinct(order)
    && (forall i :: i in order <==> Represents(graph, i))
    && (forall p, q :: 0 <= p <= q < |order| ==> !DependsOn(graph, order[p], order[q]))
  }

  // ----- Edge lists -----

  /** The first component has to be loaded before the second. */
  type Edge = (int, int)

  ghost function DependentsOf(edges: seq<Edge>, u: int): seq<int> {
    if edges == [] then []
    else
      var rest, e := edges[..|edges| - 1], edges[|edges| - 1];
      DependentsOf(rest, u) + if e.0 == u then [e.1] else []
  }

  /** How many edges into `v` come from a node that is not done. */
  ghost function InDegree(edges: seq<Edge>, v: int, done: set<int>): nat {
    if edges == [] then 0
    else
      var rest, e := edges[..|edges| - 1], edges[|edges| - 1];
      InDegree(rest, v, done) + if e.1 == v && e.0 !in done then 1 else 0
  }

  lemma {:induction false} InDegreeIsZero(edges: seq<Edge>, v: int, done: set<int>)
    ensures InDegree(edges, v, done) == 0 <==> forall e :: e in edges && e.1 == v ==> e.0 in done
  {
    if edges == [] {
    } else {
      var rest, e := edges[..|edges| - 1], edges[|edges| - 1];
      assert edges == rest + [e];
      InDegreeIsZero(rest, v, done);
      assert e in edges;
    }
  }

  /** Finishing `u` lowers the in-degree of each node by its number of edges from `u`. */
  lemma {:induction false} FinishingNode(edges: seq<Edge>, u: int, v: int, done: set<int>)
    requires u !in done
    ensures InDegree(edges, v, done) == InDegree(edges, v, done + {u}) + multiset(DependentsOf(edges, u))[v]
  {
    if edges == [] {
    } else {
      FinishingNode(edges[..|edges| - 1], u, v, done);
    }
  }

  lemma {:induction false} DependentsAreEdges(edges: seq<Edge>, u: int)
    ensures forall v :: v in DependentsOf(edges, u) ==> (u, v) in edges
  {
    if edges == [] {
    } else {
      var rest, e := edges[..|edges| - 1], edges[|edges| - 1];
      assert edges == rest + [e];
      DependentsAreEdges(rest, u);
    }
  }

  // ----- Cycles -----

  lemma {:induction false} ElementsFit(s: seq<int>)
    ensures |set x | x in s| <= |s|
  {
    if s == [] {
    } else {
      ElementsFit(s[1..]);
      assert (set x | x in s) == {s[0]} + set x | x in s[1..];
    }
  }

  lemma {:induction false} DistinctFits(s: seq<int>, bound: set<int>)
    requires Distinct(s) && forall x :: x in s ==> x in bound
    ensures |s| <= |bound|
  {
    if s == [] {
    } else {
      var x := s[|s| - 1];
      DistinctFits(s[..|s| - 1], bound - {x});
    }
  }

  ghost predicate DependsOnOneOf(graph: seq<Node>, i: int, nodes: set<int>) {
    exists j :: j in nodes && DependsOn(graph, i, j)
  }

  lemma ClosedWalkIsCycle(graph: seq<Node>, walk: seq<int>, i: int, next: int)
    requires IsWalk(graph, walk) && DependsOn(graph, walk[|walk| - 1], next)
    requires 0 <= i < |walk| && walk[i] == next
    ensures ReachesCycle(graph, walk[0])
  {
    var cycle := walk[i..] + [next];
    forall k | 0 < k < |cycle| ensures DependsOn(graph, cycle[k - 1], cycle[k]) {
      if k < |cycle| - 1 {
        assert cycle[k - 1] == walk[i + k - 1] && cycle[k] == walk[i + k];
      }
    }
    assert IsCycle(graph, cycle);
    assert IsWalk(graph, walk[..i + 1]);
  }

  /** In a finite set where every node depends on another of the set, every walk runs into a cycle. */
  lemma {:induction false} WalkIntoCycle(graph: seq<Node>, stuck: set<int>, walk: seq<int>)
    requires forall v {:trigger DependsOnOneOf(graph, v, stuck)} :: v in stuck ==> DependsOnOneOf(graph, v, stuck)
    requires IsWalk(graph, walk) && Distinct(walk) && forall x :: x in walk ==> x in stuck
    ensures ReachesCycle(graph, walk[0])
    decreases |stuck| - |walk|
  {
    DistinctFits(walk, stuck);
    var last := walk[|walk| - 1];
    assert last in stuck && DependsOnOneOf(graph, last, stuck);
    var next :| next in stuck && DependsOn(graph, last, next);
    if next in walk {
      var i :| 0 <= i < |walk| && walk[i] == next;
      ClosedWalkIsCycle(graph, walk, i, next);
    } else {
      var longer := walk + [next];
      DistinctFits(longer, stuck);
      WalkIntoCycle(graph, stuck, longer);
    }
  }

  /** Whatever a node of the order depends on is in front of it. */
  ghost predicate IsClosedOrder(graph: seq<Node>, order: seq<int>) {
    forall q, j :: 0 <= q < |order| && DependsOn(graph, order[q], j) ==> j in order[..q]
  }

  /** Along a walk, positions in a closed order only go down. */
  lemma {:induction false} WalkDescends(graph: seq<Node>, order: seq<int>, walk: seq<int>, p: int) returns (q: int)
    requires IsClosedOrder(graph, order) && IsWalk(graph, walk) && 0 <= p < |order| && order[p] == walk[0]
    ensures 0 <= q <= p && order[q] == walk[|walk| - 1] && (|walk| > 1 ==> q < p)
    decreases |walk|
  {
    q := p;
    if |walk| > 1 {
      assert DependsOn(graph, walk[0], walk[1]);
      assert walk[1] in order[..p];
      var m :| 0 <= m < p && order[..p][m] == walk[1];
      var tail := walk[1..];
      assert forall i :: 0 < i < |tail| ==> tail[i - 1] == walk[i] && tail[i] == walk[i + 1];
      q := WalkDescends(graph, order, tail, m);
    }
  }

  /** A node of a closed order does not reach a cycle. */
  lemma ClosedOrderAvoidsCycles(graph: seq<Node>, order: seq<int>, i: int)
    requires IsClosedOrder(graph, order) && Distinct(order) && i in order
    ensures !ReachesCycle(graph, i)
  {
    if ReachesCycle(graph, i) {
      var walk, cycle :| IsWalk(graph, walk) && IsCycle(graph, cycle) && walk[0] == i && walk[|walk| - 1] == cycle[0];
      var p :| 0 <= p < |order| && order[p] == i;
      var q := WalkDescends(graph, order, walk, p);
      var _ := WalkDescends(graph, order, cycle, q);
    }
  }

  /** With distinct names, a load order is a permutation of all indices. */
  lemma DistinctNamesArePermuted(graph: seq<Node>, order: seq<int>)
    requires forall i, j :: 0 <= i < j < |graph| ==> graph[i].name != graph[j].name
    requires IsLoadOrder(graph, order)
    ensures |order| == |graph| && forall i :: i in order <==> 0 <= i < |graph|
  {
    forall i | 0 <= i < |graph| ensures Represents(graph, i) {}
    var indices := seq(|graph|, i => i);
    var elements := set x | x in order;
    forall x | x in order ensures x in indices {
      assert indices[x] == x;
    }
    DistinctFits(indices, elements);
    ElementsFit(order);
    DistinctFits(order, set x | x in indices);
    ElementsFit(indices);
  }

  lemma LoadOrderExcludesCycles(graph: seq<Node>, order: seq<int>)
    requires IsLoadOrder(graph, order)
    ensures Acyclic(graph)
  {
    forall q, j | 0 <= q < |order| && DependsOn(graph, order[q], j) ensures j in order[..q] {
      assert j in order;
      var m :| 0 <= m < |order| && order[m] == j;
      assert order[..q][m] == j;
    }
    forall walk ensures !IsCycle(graph, walk) {
      if IsCycle(graph, walk) {
        assert DependsOn(graph, walk[0], walk[1]);
        assert IsWalk(graph, [walk[0]]) && ReachesCycle(graph, walk[0]);
        ClosedOrderAvoidsCycles(graph, order, walk[0]);
      }
    }
  }

  // ----- The node named by the error -----

  /** The order in which a hash table is gone through decides which of several elements is found first. */
  ghost predicate IsPick(pick: set<int> -> int) {
    forall s {:trigger pick(s)} :: s != {} ==> pick(s) in s
  }

  ghost function AnyOf(s: set<int>): (x: int)
    requires s != {}
    ensures x in s
  {
    HasElement(s);
    var x :| x in s;
    x
  }

  lemma HasElement(s: set<int>)
    ensures s == {} || exists x :: x in s
  {
    if forall x :: x !in s {
      assert s == {};
    }
  }

  ghost function Preferring(i: int): (pick: set<int> -> int)
    ensures IsPick(pick)
    ensures forall s {:trigger pick(s)} :: i in s ==> pick(s) == i
  {
    s => if i in s then i else if s == {} then 0 else AnyOf(s)
  }

  /** The node named is on a cycle, whatever the order of the hash table, if and only if every node that reaches a cycle
      is on one itself. */
  lemma NamedNodeLiesOnCycle(graph: seq<Node>)
    requires Stuck(graph) != {}
    ensures (forall pick :: IsPick(pick) ==> LiesOnCycle(graph, pick(Stuck(graph))))
            <==> (forall i :: Represents(graph, i) && ReachesCycle(graph, i) ==> LiesOnCycle(graph, i))
  {
    hide Represents, ReachesCycle, LiesOnCycle;
    if forall pick :: IsPick(pick) ==> LiesOnCycle(graph, pick(Stuck(graph))) {
      forall i | Represents(graph, i) && ReachesCycle(graph, i) ensures LiesOnCycle(graph, i) {
        IsStuck(graph, i);
        assert Preferring(i)(Stuck(graph)) == i;
      }
    }
    forall i | i in Stuck(graph) ensures Represents(graph, i) && ReachesCycle(graph, i) {}
  }

  lemma IsStuck(graph: seq<Node>, i: int)
    ensures i in Stuck(graph) <==> Represents(graph, i) && ReachesCycle(graph, i)
  {
    hide ReachesCycle;
  }

  /** The node named by the error need not lie on a cycle itself: here only `b` does, but `a` can be named. */
  lemma NamedNodeMayLieOutsideTheCycle()
    ensures var graph := [Node("a", ["b"]), Node("b", ["/usr/lib/b"])];
            exists pick :: IsPick(pick) && pick(Stuck(graph)) == 0 && !LiesOnCycle(graph, 0)
  {
    var graph := [Node("a", ["b"]), Node("b", ["/usr/lib/b"])];
    assert graph[0].dependencies[0] == "b" && graph[1].dependencies[0] == "/usr/lib/b";
    assert "/usr/lib/b"[|LIBRARY_PREFIX|..] == "b";
    assert StripPrefix("/usr/lib/b") == "b" && StripPrefix("b") == "b";
    assert graph[0].name != graph[1].name;
    assert Mentions(graph, 0, 0, 0, 1) && Mentions(graph, 1, 0, 1, 1);
    assert DependsOn(graph, 0, 1) && DependsOn(graph, 1, 1);
    assert IsWalk(graph, [0, 1]) && IsCycle(graph, [1, 1]);
    forall walk | IsCycle(graph, walk) ensures walk[0] != 0 {
      var n := |walk| - 1;
      assert DependsOn(graph, walk[n - 1], walk[n]);
    }
    assert ReachesCycle(graph, 0) by {
      assert [0, 1][0] == 0 && [0, 1][1] == [1, 1][0];
    }
    IsStuck(graph, 0);
    assert Preferring(0)(Stuck(graph)) == 0;
  }

  // ----- The algorithm -----

  /** Which node a name stands for. */
  method NameToIndex(graph: seq<Node>) returns (index: map<string, int>)
    ensures forall n {:trigger index[n]} :: n in index ==> Represents(graph, index[n]) && graph[index[n]].name == n
    ensures forall k :: 0 <= k < |graph| ==> graph[k].name in index
  {
    index := map[];
    for k := 0 to |graph|
      invariant forall i :: 0 <= i < k ==> graph[i].name in index && i <= index[graph[i].name]
      invariant forall n :: n in index ==> 0 <= index[n] < k && graph[index[n]].name == n
    {
      index := index[graph[k].name := k];
    }
    forall n | n in index ensures Represents(graph, index[n]) {
      forall k | index[n] < k < |graph| ensures graph[k].name != n {}
    }
  }

  /** The first `k` nodes, and the first `d` dependencies of node `k`, have contributed their edges. */
  ghost predicate Collected(graph: seq<Node>, edges: seq<Edge>, k: int, d: int) {
    && (forall i, j :: (j, i) in edges ==> DependsOn(graph, i, j))
    && (forall k', d', i, j :: Mentions(graph, k', d', i, j) && (k' < k || (k' == k && d' < d)) ==> (j, i) in edges)
  }

  /** The tables of the algorithm hold exactly the edges. */
  ghost predicate Tabulated(edges: seq<Edge>, dependents: map<int, seq<int>>, inDegrees: map<int, nat>) {
    && (forall u :: DependentsOf(edges, u) == if u in dependents then dependents[u] else [])
    && (forall v :: v in inDegrees ==> inDegrees[v] == InDegree(edges, v, {}))
  }

  /** The dependents of every node and the in-degrees, for exactly the edges of the graph. */
  method BuildGraph(graph: seq<Node>, index: map<string, int>)
    returns (dependents: map<int, seq<int>>, inDegrees: map<int, nat>, ghost edges: seq<Edge>)
    requires forall n {:trigger index[n]} :: n in index ==> Represents(graph, index[n]) && graph[index[n]].name == n
    requires forall k :: 0 <= k < |graph| ==> graph[k].name in index
    ensures forall i, j :: (j, i) in edges <==> DependsOn(graph, i, j)
    ensures Tabulated(edges, dependents, inDegrees)
    ensures forall i :: i in inDegrees <==> Represents(graph, i)
    ensures forall e :: e in edges ==> e.1 in inDegrees
  {
    dependents := map[];
    inDegrees := map i | i in index.Values :: 0;
    edges := [];
    forall i ensures i in index.Values <==> Represents(graph, i) {
      if Represents(graph, i) {
        assert graph[i].name in index.Keys;
        OneRepresentative(graph, i, index[graph[i].name]);
      }
    }
    for k := 0 to |graph|
      invariant Collected(graph, edges, k, 0)
      invariant Tabulated(edges, dependents, inDegrees)
      invariant forall i :: i in inDegrees <==> Represents(graph, i)
    {
      for d := 0 to |graph[k].dependencies|
        invariant Collected(graph, edges, k, d)
        invariant Tabulated(edges, dependents, inDegrees)
        invariant forall i :: i in inDegrees <==> Represents(graph, i)
      {
        dependents, inDegrees, edges := AddDependency(graph, index, k, d, dependents, inDegrees, edges);
      }
    }
    forall e | e in edges ensures e.1 in inDegrees {
      assert e == (e.0, e.1) && DependsOn(graph, e.1, e.0);
    }
  }

  lemma CollectOne(graph: seq<Node>, edges: seq<Edge>, k: int, d: int, more: seq<Edge>)
    requires Collected(graph, edges, k, d)
    requires forall i, j :: Mentions(graph, k, d, i, j) <==> (j, i) in more
    ensures Collected(graph, edges + more, k, d + 1)
  {
    forall i, j | (j, i) in edges + more ensures DependsOn(graph, i, j) {
      assert (j, i) in edges || (j, i) in more;
    }
  }

  lemma EdgeAdded(edges: seq<Edge>, e: Edge, u: int)
    ensures DependentsOf(edges + [e], u) == DependentsOf(edges, u) + if e.0 == u then [e.1] else []
    ensures InDegree(edges + [e], u, {}) == InDegree(edges, u, {}) + if e.1 == u then 1 else 0
  {
    assert (edges + [e])[..|edges + [e]| - 1] == edges;
  }

  lemma TabulateOne(edges: seq<Edge>, dependents: map<int, seq<int>>, inDegrees: map<int, nat>, e: Edge)
    requires Tabulated(edges, dependents, inDegrees) && e.1 in inDegrees
    ensures Tabulated(edges + [e],
                      dependents[e.0 := (if e.0 in dependents then dependents[e.0] else []) + [e.1]],
                      inDegrees[e.1 := inDegrees[e.1] + 1])
  {
    hide DependentsOf, InDegree;
    var dependents' := dependents[e.0 := (if e.0 in dependents then dependents[e.0] else []) + [e.1]];
    forall u ensures DependentsOf(edges + [e], u) == if u in dependents' then dependents'[u] else [] {
      EdgeAdded(edges, e, u);
    }
    var inDegrees' := inDegrees[e.1 := inDegrees[e.1] + 1];
    forall v | v in inDegrees' ensures inDegrees'[v] == InDegree(edges + [e], v, {}) {
      EdgeAdded(edges, e, v);
    }
  }

  lemma OneRepresentative(graph: seq<Node>, i: int, j: int)
    requires Represents(graph, i) && Represents(graph, j) && graph[i].name == graph[j].name
    ensures i == j
  {
  }

  /** One dependency entry makes at most one edge. */
  lemma MentionsOne(graph: seq<Node>, index: map<string, int>, k: int, d: int)
    requires forall n {:trigger index[n]} :: n in index ==> Represents(graph, index[n]) && graph[index[n]].name == n
    requires forall i :: 0 <= i < |graph| ==> graph[i].name in index
    requires 0 <= k < |graph| && 0 <= d < |graph[k].dependencies|
    ensures var dependency := StripPrefix(graph[k].dependencies[d]);
            forall i, j :: Mentions(graph, k, d, i, j) <==>
              dependency in index && i == index[graph[k].name] && j == index[dependency]
  {
    var path := graph[k].dependencies[d];
    var dependency := StripPrefix(path);
    StrippingFindsName(path, dependency);
    forall i, j | Mentions(graph, k, d, i, j)
      ensures dependency in index && i == index[graph[k].name] && j == index[dependency]
    {
      OneRepresentative(graph, i, index[graph[k].name]);
      OneRepresentative(graph, j, index[graph[j].name]);
      StrippingFindsName(path, graph[j].name);
    }
  }

  method AddDependency(graph: seq<Node>, index: map<string, int>, k: int, d: int,
                       dependents: map<int, seq<int>>, inDegrees: map<int, nat>, ghost edges: seq<Edge>)
    returns (dependents': map<int, seq<int>>, inDegrees': map<int, nat>, ghost edges': seq<Edge>)
    requires forall n {:trigger index[n]} :: n in index ==> Represents(graph, index[n]) && graph[index[n]].name == n
    requires forall i :: 0 <= i < |graph| ==> graph[i].name in index
    requires 0 <= k < |graph| && 0 <= d < |graph[k].dependencies|
    requires Collected(graph, edges, k, d) && Tabulated(edges, dependents, inDegrees)
    requires forall i :: i in inDegrees <==> Represents(graph, i)
    ensures Collected(graph, edges', k, d + 1) && Tabulated(edges', dependents', inDegrees')
    ensures inDegrees'.Keys == inDegrees.Keys
  {
    hide Collected, Tabulated, Mentions, StripPrefix;
    dependents', inDegrees', edges' := dependents, inDegrees, edges;
    var binIndex := index[graph[k].name];
    var dependency := StripPrefix(graph[k].dependencies[d]);
    MentionsOne(graph, index, k, d);
    if dependency !in index {
      CollectOne(graph, edges, k, d, []);
      assert edges + [] == edges;
      return;
    }
    var dylibIndex := index[dependency];
    CollectOne(graph, edges, k, d, [(dylibIndex, binIndex)]);
    assert binIndex in inDegrees;
    TabulateOne(edges, dependents, inDegrees, (dylibIndex, binIndex));
    dependents' := dependents[dylibIndex := (if dylibIndex in dependents then dependents[dylibIndex]
        else []) + [binIndex]];
    inDegrees' := inDegrees[binIndex := inDegrees[binIndex] + 1];
    edges' := edges + [(dylibIndex, binIndex)];
  }

  /** The nodes without dependencies, in whatever order the hash table yields them. */
  method Leaves(inDegrees: map<int, nat>) returns (leaves: seq<int>)
    ensures Distinct(leaves) && forall i :: i in leaves <==> i in inDegrees && inDegrees[i] == 0
  {
    leaves := [];
    var rest := inDegrees.Keys;
    while rest != {}
      invariant Distinct(leaves) && rest <= inDegrees.Keys
      invariant forall i :: i in leaves <==> i in inDegrees && i !in rest && inDegrees[i] == 0
    {
      var node := NextOf(rest);
      rest := rest - {node};
      if inDegrees[node] == 0 {
        leaves := leaves + [node];
      }
    }
  }

  /** What holds between two steps of the main loop. */
  ghost predicate Progress(edges: seq<Edge>, nodes: set<int>, inDegrees: map<int, nat>, sorted: seq<int>,
                           leaves: seq<int>, done: set<int>, extra: multiset<int>)
  {
    && inDegrees.Keys == nodes
    && (forall v :: v in nodes ==> inDegrees[v] == InDegree(edges, v, done) + extra[v])
    && Distinct(sorted + leaves)
    && (forall v :: v in sorted + leaves <==> v in nodes && inDegrees[v] == 0)
    && (forall v :: v in done <==> v in sorted)
    && (forall q, e :: 0 <= q < |sorted| && e in edges && e.1 == sorted[q] ==> e.0 in sorted[..q])
  }

  lemma TakingLeaf(edges: seq<Edge>, nodes: set<int>, inDegrees: map<int, nat>, sorted: seq<int>, leaves: seq<int>,
                   done: set<int>)
    requires leaves != [] && Progress(edges, nodes, inDegrees, sorted, leaves, done, multiset{})
    ensures leaves[0] in nodes && leaves[0] !in done
    ensures Progress(edges, nodes, inDegrees, sorted + [leaves[0]], leaves[1..], done + {leaves[0]},
                     multiset(DependentsOf(edges, leaves[0])))
  {
    var node := leaves[0];
    var sorted' := sorted + [node];
    assert (sorted + leaves)[|sorted|] == node;
    assert forall q :: 0 <= q < |sorted| ==> (sorted + leaves)[q] == sorted[q];
    assert sorted' + leaves[1..] == sorted + leaves;
    InDegreeIsZero(edges, node, done);
    forall v {
      FinishingNode(edges, node, v, done);
    }
    assert sorted'[..|sorted|] == sorted;
    assert forall q :: 0 <= q < |sorted| ==> sorted'[..q] == sorted[..q];
  }

  /** The nodes that the algorithm leaves over are exactly those that reach a cycle; which of them is named depends on
      the hash table alone. */
  method GenerateBinaryLoadOrder(graph: seq<Node>, pick: set<int> -> int) returns (r: Outcome)
    requires IsPick(pick)
    ensures r.Sorted? <==> Acyclic(graph)
    ensures r.Sorted? ==> IsLoadOrder(graph, r.order)
    ensures r.Cyclic? ==> Stuck(graph) != {} && r.name == graph[pick(Stuck(graph))].name
  {
    var index := NameToIndex(graph);
    var dependents, inDegrees, edges := BuildGraph(graph, index);
    ghost var nodes := inDegrees.Keys;
    var leaves := Leaves(inDegrees);
    var sorted := [];
    ghost var done := {};
    while leaves != []
      invariant Progress(edges, nodes, inDegrees, sorted, leaves, done, multiset{})
      decreases nodes - done
    {
      var node := leaves[0];
      TakingLeaf(edges, nodes, inDegrees, sorted, leaves, done);
      sorted, leaves := sorted + [node], leaves[1..];
      done := done + {node};
      inDegrees, leaves := Release(edges, nodes, node, dependents, inDegrees, sorted, leaves, done);
    }
    var left := set i | i in inDegrees && inDegrees[i] > 0;
    LeftoverIsStuck(graph, edges, inDegrees, sorted, done);
    if left != {} {
      return Cyclic(graph[pick(left)].name);
    }
    AllSorted(graph, edges, inDegrees, sorted, done);
    return Sorted(sorted);
  }

  /** Dropping one edge into `v` queues `v` exactly when that was the last one. */
  lemma ReleaseOne(edges: seq<Edge>, nodes: set<int>, inDegrees: map<int, nat>, sorted: seq<int>, leaves: seq<int>,
                   done: set<int>, v: int, extra: multiset<int>)
    requires v in nodes && Progress(edges, nodes, inDegrees, sorted, leaves, done, extra + multiset{v})
    ensures v in inDegrees && inDegrees[v] > 0
    ensures Progress(edges, nodes, inDegrees[v := inDegrees[v] - 1], sorted,
                     if inDegrees[v] == 1 then leaves + [v] else leaves, done, extra)
  {
    var queued := sorted + leaves;
    assert inDegrees[v] > 0 && v !in queued;
    assert sorted + (leaves + [v]) == queued + [v];
  }

  /** Takes the edges from the node just sorted out of the in-degrees, queueing the nodes that become leaves. */
  method Release(ghost edges: seq<Edge>, ghost nodes: set<int>, node: int, dependents: map<int, seq<int>>,
                 inDegrees: map<int, nat>, ghost sorted: seq<int>, leaves: seq<int>, ghost done: set<int>)
    returns (inDegrees': map<int, nat>, leaves': seq<int>)
    requires DependentsOf(edges, node) == if node in dependents then dependents[node] else []
    requires forall e :: e in edges ==> e.1 in nodes
    requires Progress(edges, nodes, inDegrees, sorted, leaves, done, multiset(DependentsOf(edges, node)))
    ensures Progress(edges, nodes, inDegrees', sorted, leaves', done, multiset{})
  {
    hide Progress;
    inDegrees', leaves' := inDegrees, leaves;
    if node !in dependents {
      return;
    }
    var waiting := dependents[node];
    assert waiting[0..] == waiting;
    DependentsAreEdges(edges, node);
    for i := 0 to |waiting|
      invariant Progress(edges, nodes, inDegrees', sorted, leaves', done, multiset(waiting[i..]))
    {
      var dependant := waiting[i];
      assert dependant in nodes by {
        assert dependant in waiting && (node, dependant) in edges;
      }
      assert waiting[i..] == [dependant] + waiting[i + 1..];
      assert multiset(waiting[i..]) == multiset(waiting[i + 1..]) + multiset{dependant};
      ReleaseOne(edges, nodes, inDegrees', sorted, leaves', done, dependant, multiset(waiting[i + 1..]));
      inDegrees' := inDegrees'[dependant := inDegrees'[dependant] - 1];
      if inDegrees'[dependant] == 0 {
        leaves' := leaves' + [dependant];
      }
    }
    assert waiting[|waiting|..] == [];
  }

  lemma AllSorted(graph: seq<Node>, edges: seq<Edge>, inDegrees: map<int, nat>, sorted: seq<int>, done: set<int>)
    requires forall i, j :: (j, i) in edges <==> DependsOn(graph, i, j)
    requires forall i :: i in inDegrees <==> Represents(graph, i)
    requires Progress(edges, inDegrees.Keys, inDegrees, sorted, [], done, multiset{})
    requires forall i :: i in inDegrees ==> inDegrees[i] == 0
    ensures IsLoadOrder(graph, sorted) && Acyclic(graph)
  {
    assert sorted + [] == sorted;
    forall p, q | 0 <= p <= q < |sorted| ensures !DependsOn(graph, sorted[p], sorted[q]) {
      var v, u, front := sorted[p], sorted[q], sorted[..p];
      assert DependsOn(graph, v, u) ==> (u, v) in edges;
      assert DependsOn(graph, v, u) ==> u in front;
      assert u !in front;
    }
    LoadOrderExcludesCycles(graph, sorted);
  }

  lemma LeftoverReachesCycle(graph: seq<Node>, edges: seq<Edge>, inDegrees: map<int, nat>, sorted: seq<int>,
                             done: set<int>, index: int)
    requires forall i, j :: (j, i) in edges <==> DependsOn(graph, i, j)
    requires Progress(edges, inDegrees.Keys, inDegrees, sorted, [], done, multiset{})
    requires forall e :: e in edges ==> e.0 in inDegrees
    requires index in inDegrees && inDegrees[index] > 0
    ensures ReachesCycle(graph, index)
  {
    assert sorted + [] == sorted;
    var stuck := set i | i in inDegrees && inDegrees[i] > 0;
    forall v | v in stuck ensures DependsOnOneOf(graph, v, stuck) {
      InDegreeIsZero(edges, v, done);
      var e :| e in edges && e.1 == v && e.0 !in done;
      assert e == (e.0, v) && DependsOn(graph, v, e.0);
    }
    WalkIntoCycle(graph, stuck, [index]);
  }

  lemma SortedIsClosed(graph: seq<Node>, edges: seq<Edge>, inDegrees: map<int, nat>, sorted: seq<int>, done: set<int>)
    requires forall i, j :: (j, i) in edges <==> DependsOn(graph, i, j)
    requires Progress(edges, inDegrees.Keys, inDegrees, sorted, [], done, multiset{})
    ensures IsClosedOrder(graph, sorted) && Distinct(sorted)
    ensures forall i :: i in sorted <==> i in inDegrees && inDegrees[i] == 0
  {
    assert sorted + [] == sorted;
    forall q, j | 0 <= q < |sorted| && DependsOn(graph, sorted[q], j) ensures j in sorted[..q] {
      assert (j, sorted[q]) in edges;
    }
  }

  /** What is left over are exactly the nodes that reach a cycle. */
  lemma LeftoverIsStuck(graph: seq<Node>, edges: seq<Edge>, inDegrees: map<int, nat>, sorted: seq<int>, done: set<int>)
    requires forall i, j :: (j, i) in edges <==> DependsOn(graph, i, j)
    requires forall i :: i in inDegrees <==> Represents(graph, i)
    requires Progress(edges, inDegrees.Keys, inDegrees, sorted, [], done, multiset{})
    ensures (set i | i in inDegrees && inDegrees[i] > 0) == Stuck(graph)
    ensures Stuck(graph) != {} ==> !Acyclic(graph)
  {
    hide Progress, Represents, ReachesCycle, DependsOn;
    SortedIsClosed(graph, edges, inDegrees, sorted, done);
    EdgesAreInside(graph, edges, inDegrees);
    forall i ensures i in inDegrees && inDegrees[i] > 0 <==> i in Stuck(graph) {
      IsStuck(graph, i);
      if i in inDegrees && inDegrees[i] > 0 {
        LeftoverReachesCycle(graph, edges, inDegrees, sorted, done, i);
      } else if i in inDegrees {
        ClosedOrderAvoidsCycles(graph, sorted, i);
      }
    }
    forall i | i in Stuck(graph) ensures !Acyclic(graph) {
      IsStuck(graph, i);
      HasCycle(graph, i);
    }
  }

  lemma EdgesAreInside(graph: seq<Node>, edges: seq<Edge>, inDegrees: map<int, nat>)
    requires forall i, j :: (j, i) in edges <==> DependsOn(graph, i, j)
    requires forall i :: i in inDegrees <==> Represents(graph, i)
    ensures forall e :: e in edges ==> e.0 in inDegrees
  {
    forall e | e in edges ensures e.0 in inDegrees {
      assert e == (e.0, e.1) && DependsOn(graph, e.1, e.0);
    }
  }

  lemma HasCycle(graph: seq<Node>, i: int)
    requires ReachesCycle(graph, i)
    ensures !Acyclic(graph)
  {
  }
}
