/** Dependency components: strongly connected components, each cyclic one with a cycle path as evidence. */
module Components {
  import opened Ordering
  import opened Digraph
  import opened DirectedCycle
  import opened Tarjan

  // ----- The exhaustive simple-path search for a cycle through `start` -----

  /** One level of the search: `targets` are the successors of the last path node still to be tried. */
  function Search(g: Graph, members: set<Node>, start: Node, path: seq<Node>, visited: set<Node>, targets: seq<Node>)
    : (found: seq<Node>)
    requires members <= g.Keys
    decreases |members - visited|, |targets|
  {
    if targets == [] then []
    else
      var target := targets[0];
      if target !in members then
        Search(g, members, start, path, visited, targets[1..])
      else if target == start then
        path + [start]
      else if target in visited then
        Search(g, members, start, path, visited, targets[1..])
      else
        FewerLeft(members, visited, visited + {target}, target);
        var deeper := Search(g, members, start, path + [target], visited + {target}, g[target]);
        if deeper != [] then deeper else Search(g, members, start, path, visited, targets[1..])
  }

  function FindComponentCycle(members: seq<Node>, g: Graph): seq<Node>
    requires members != [] && Elements(members) <= g.Keys
  {
    assert members[0] in Elements(members);
    Search(g, Elements(members), members[0], [members[0]], {members[0]}, g[members[0]])
  }

  /** A cycle through `start` that stays among `members`. */
  ghost predicate CycleThrough(g: Graph, members: set<Node>, start: Node, cycle: seq<Node>) {
    IsCycle(g, cycle) && cycle[0] == start && forall x :: x in cycle ==> x in members
  }

  /** Whatever the search returns is a cycle. */
  lemma {:induction false} SearchSound(g: Graph, members: set<Node>, start: Node, path: seq<Node>, visited: set<Node>, targets: seq<Node>)
    requires WellFormed(g) && members <= g.Keys && start in members
    requires IsPath(g, path) && path[0] == start && Distinct(path)
    requires forall x :: x in path ==> x in members && x in visited
    requires forall t :: t in targets ==> Edge(g, path[|path| - 1], t)
    ensures var found := Search(g, members, start, path, visited, targets);
            found != [] ==> CycleThrough(g, members, start, found)
    decreases |members - visited|, |targets|
  {
    if targets != [] {
      var target := targets[0];
      assert target in targets;
      ExtendWalk(g, path, start, path[|path| - 1], target);
      if target in members && target == start {
        var cycle := path + [start];
        assert cycle[..|cycle| - 1] == path;
      } else {
        assert forall t :: t in targets[1..] ==> t in targets;
        SearchSound(g, members, start, path, visited, targets[1..]);
        if target in members && target !in visited {
          FewerLeft(members, visited, visited + {target}, target);
          assert forall t :: t in g[target] ==> Edge(g, target, t);
          SearchSound(g, members, start, path + [target], visited + {target}, g[target]);
        }
      }
    }
  }

  /** The search misses nothing: any simple way back to `start` over unvisited members makes it succeed. */
  lemma {:induction false} SearchComplete(g: Graph, members: set<Node>, start: Node, path: seq<Node>, visited: set<Node>,
                                          targets: seq<Node>, way: seq<Node>)
    requires WellFormed(g) && members <= g.Keys && start in members
    requires IsPath(g, way + [start]) && (way + [start])[0] in targets
    requires Distinct(way) && forall x :: x in way ==> x in members && x !in visited
    ensures Search(g, members, start, path, visited, targets) != []
    decreases |members - visited|, |targets|
  {
    var target := targets[0];
    var first := (way + [start])[0];
    assert way != [] ==> first in way;
    if target != start {
      if way != [] && target == first {
        FewerLeft(members, visited, visited + {target}, target);
        var rest := way[1..];
        assert (way + [start])[1..] == rest + [start];
        assert Edge(g, (way + [start])[0], (way + [start])[0 + 1]);
        SubWalk(g, way + [start], 1, |way|);
        assert (way + [start])[1..|way| + 1] == rest + [start];
        SearchComplete(g, members, start, path + [target], visited + {target}, g[target], rest);
      } else {
        SearchComplete(g, members, start, path, visited, targets[1..], way);
      }
    }
  }

  /** What the search finds extends the path it was given. */
  lemma {:induction false} SearchExtends(g: Graph, members: set<Node>, start: Node, path: seq<Node>, visited: set<Node>, targets: seq<Node>)
    requires members <= g.Keys
    ensures var found := Search(g, members, start, path, visited, targets);
            found != [] ==> |path| < |found| && found[..|path|] == path
    decreases |members - visited|, |targets|
  {
    if targets != [] {
      var target := targets[0];
      if target !in members || target != start {
        SearchExtends(g, members, start, path, visited, targets[1..]);
        if target in members && target !in visited {
          FewerLeft(members, visited, visited + {target}, target);
          SearchExtends(g, members, start, path + [target], visited + {target}, g[target]);
          var deeper := Search(g, members, start, path + [target], visited + {target}, g[target]);
          if deeper != [] { assert deeper[..|path|] == deeper[..|path| + 1][..|path|] == path; }
        }
      }
    }
  }

  /** A simple way back to `start` over unvisited members, by way of one of the targets. */
  ghost predicate WayHome(g: Graph, members: set<Node>, start: Node, visited: set<Node>, targets: seq<Node>, way: seq<Node>) {
    && IsPath(g, way + [start]) && (way + [start])[0] in targets
    && Distinct(way) && forall x :: x in way ==> x in members && x !in visited
  }

  lemma WayOn(g: Graph, members: set<Node>, start: Node, visited: set<Node>, targets: seq<Node>, way: seq<Node>)
    requires WellFormed(g) && members <= g.Keys && WayHome(g, members, start, visited, targets, way) && way != []
    ensures way[0] in g && WayHome(g, members, start, visited + {way[0]}, g[way[0]], way[1..])
  {
    var rest := way[1..];
    assert way[0] in way;
    assert (way + [start])[1..|way| + 1] == rest + [start];
    SubWalk(g, way + [start], 1, |way|);
    assert Edge(g, (way + [start])[0], (way + [start])[0 + 1]);
  }

  ghost predicate LexAtMost(p: seq<Node>, q: seq<Node>) {
    p == q || LexLess(p, q)
  }

  lemma LessAfter(path: seq<Node>, found: seq<Node>, other: seq<Node>)
    requires |path| < |found| && |path| < |other| && found[..|path|] == path == other[..|path|] && found[|path|] < other[|path|]
    ensures LexAtMost(found, other)
  {
    assert FirstDifferenceLess(found, other, |path|);
  }

  /** Targets are tried in increasing order, so no way back is lexicographically less than the one found. */
  lemma {:induction false} SearchLeast(g: Graph, members: set<Node>, start: Node, path: seq<Node>, visited: set<Node>,
                                       targets: seq<Node>, way: seq<Node>)
    requires WellFormed(g) && members <= g.Keys && start in members && start in visited && Increasing(targets)
    requires WayHome(g, members, start, visited, targets, way)
    ensures LexAtMost(Search(g, members, start, path, visited, targets), path + way + [start])
    decreases |members - visited|, |targets|
  {
    var target, rest := targets[0], targets[1..];
    var first := (way + [start])[0];
    var all := path + way + [start];
    assert all[..|path|] == path && all[|path|] == first;
    assert targets == [target] + rest;
    if way == [] && target == start {
      assert all == path + [start];
    } else if way != [] && target == first {
      FewerLeft(members, visited, visited + {target}, target);
      WayOn(g, members, start, visited, targets, way);
      assert all == path + [target] + way[1..] + [start];
      SearchComplete(g, members, start, path + [target], visited + {target}, g[target], way[1..]);
      SearchLeast(g, members, start, path + [target], visited + {target}, g[target], way[1..]);
    } else {
      assert target < first && WayHome(g, members, start, visited, rest, way);
      SearchLeast(g, members, start, path, visited, rest, way);
      EarlierIsLess(g, members, start, path, visited, targets, all);
    }
  }

  /** What is found by way of the first target comes before everything that goes on from a greater one. */
  lemma EarlierIsLess(g: Graph, members: set<Node>, start: Node, path: seq<Node>, visited: set<Node>, targets: seq<Node>, other: seq<Node>)
    requires members <= g.Keys && targets != []
    requires |path| < |other| && other[..|path|] == path && targets[0] < other[|path|]
    requires LexAtMost(Search(g, members, start, path, visited, targets[1..]), other)
    ensures LexAtMost(Search(g, members, start, path, visited, targets), other)
  {
    var target := targets[0];
    var found := Search(g, members, start, path, visited, targets);
    if target in members && target == start {
      LessAfter(path, found, other);
    } else if target in members && target !in visited {
      FewerLeft(members, visited, visited + {target}, target);
      var deeper := Search(g, members, start, path + [target], visited + {target}, g[target]);
      SearchExtends(g, members, start, path + [target], visited + {target}, g[target]);
      if deeper != [] {
        assert found == deeper && found[..|path| + 1] == path + [target];
        assert found[..|path|] == found[..|path| + 1][..|path|] && found[|path|] == found[..|path| + 1][|path|];
        LessAfter(path, found, other);
      }
    }
  }

  /** The lexicographically least simple cycle through `start` that stays among `members`. */
  ghost predicate LeastCycle(g: Graph, members: set<Node>, start: Node, cycle: seq<Node>) {
    && CycleThrough(g, members, start, cycle)
    && forall other :: CycleThrough(g, members, start, other) ==> LexAtMost(cycle, other)
  }

  lemma LeastCycleUnique(g: Graph, members: set<Node>, start: Node, a: seq<Node>, b: seq<Node>)
    requires LeastCycle(g, members, start, a) && LeastCycle(g, members, start, b)
    ensures a == b
  {
    if a != b { LexAsymmetric(a, b); }
  }

  /** Any cycle through `start` is a way home for the search. */
  lemma CycleIsWayHome(g: Graph, members: set<Node>, start: Node, cycle: seq<Node>)
    requires WellFormed(g) && start in g && CycleThrough(g, members, start, cycle)
    ensures WayHome(g, members, start, {start}, g[start], cycle[1..|cycle| - 1]) && cycle == [start] + cycle[1..|cycle| - 1] + [start]
  {
    var n := |cycle| - 1;
    var way := cycle[1..n];
    assert cycle == [start] + way + [start];
    SubWalk(g, cycle, 1, n);
    assert cycle[1..n + 1] == way + [start];
    assert Edge(g, cycle[0], cycle[0 + 1]);
    forall i | 0 <= i < |way| ensures way[i] != start && way[i] in members {
      assert cycle[..n][i + 1] == way[i] && cycle[..n][0] == start && way[i] == cycle[i + 1];
    }
    forall i, j | 0 <= i < j < |way| ensures way[i] != way[j] {
      assert cycle[..n][i + 1] == way[i] && cycle[..n][j + 1] == way[j];
    }
  }

  lemma FoundIsLeast(members: seq<Node>, g: Graph, cycle: seq<Node>)
    requires WellFormed(g) && members != [] && Elements(members) <= g.Keys && members[0] in g
    requires CycleThrough(g, Elements(members), members[0], cycle)
    ensures LexAtMost(FindComponentCycle(members, g), cycle)
  {
    var start := members[0];
    assert start in members;
    CycleIsWayHome(g, Elements(members), start, cycle);
    SearchLeast(g, Elements(members), start, [start], {start}, g[start], cycle[1..|cycle| - 1]);
  }

  // ----- Cyclic components -----

  /** `len(members) > 1`, or a single member with an edge to itself. */
  predicate IsCyclic(g: Graph, members: seq<Node>)
    requires members != [] && members[0] in g
  {
    |members| > 1 || members[0] in g[members[0]]
  }

  /** The flag is right for every member: the component is cyclic iff its members lie on cycles. */
  lemma CyclicMeansOnCycle(g: Graph, members: seq<Node>, u: Node)
    requires WellFormed(g) && IsScc(g, members) && u in members
    ensures members[0] in members
    ensures IsCyclic(g, members) <==> OnCycle(g, u)
  {
    assert members[0] in members;
    if OnCycle(g, u) {
      var w := FirstStep(g, u, u);
      ReachesEdge(g, u, w);
      assert w in members;
      if |members| == 1 {
        assert u == members[0] && w == members[0];
      }
    } else if IsCyclic(g, members) {
      if |members| > 1 {
        var v := if members[0] == u then members[1] else members[0];
        assert members[1] in members;
        assert v in members && Mutual(g, u, v) && u != v;
        OtherMemberOnCycle(g, u, v);
      } else {
        ReachesEdge(g, u, u);
      }
    }
  }

  lemma OtherMemberOnCycle(g: Graph, u: Node, v: Node)
    requires Mutual(g, u, v) && u != v
    ensures OnCycle(g, u)
  {
    var p :| Walk(g, p, u, v);
    assert |p| > 1;
    ReachesTransitive(g, u, v, u);
  }

  /** Every cyclic component yields the least simple cycle through its smallest member that stays inside it. */
  lemma CycleFound(g: Graph, members: seq<Node>)
    requires WellFormed(g) && IsScc(g, members)
    ensures members[0] in members && Elements(members) <= g.Keys
    ensures var cycle := FindComponentCycle(members, g);
            && (cycle != [] <==> IsCyclic(g, members))
            && (cycle != [] ==> LeastCycle(g, Elements(members), members[0], cycle))
  {
    var start := members[0];
    assert start in members;
    SearchSound(g, Elements(members), start, [start], {start}, g[start]);
    forall other | CycleThrough(g, Elements(members), start, other) ensures LexAtMost(FindComponentCycle(members, g), other) {
      FoundIsLeast(members, g, other);
    }
    CyclicMeansOnCycle(g, members, start);
    if OnCycle(g, start) {
      var w := FirstStep(g, start, start);
      WayBack(g, members, w);
    } else {
      var cycle := FindComponentCycle(members, g);
      if cycle != [] { CycleRefutesAcyclic(g, cycle); }
    }
  }

  /** A successor of the smallest member that leads back to it makes the search succeed. */
  lemma WayBack(g: Graph, members: seq<Node>, w: Node)
    requires WellFormed(g) && IsScc(g, members)
    requires Edge(g, members[0], w) && Reaches(g, w, members[0])
    ensures Elements(members) <= g.Keys && FindComponentCycle(members, g) != []
  {
    var start := members[0];
    assert start in members;
    var p :| Walk(g, p, w, start);
    var q := SimplePath(g, p, w, start);
    var way := q[..|q| - 1];
    assert q == way + [start];
    WalkNodes(g, q);
    forall i | 0 <= i < |way| ensures way[i] in members && way[i] != start {
      ReachesEdge(g, start, w);
      SubWalk(g, q, 0, i);
      SubWalk(g, q, i, |q| - 1);
      ReachesTransitive(g, start, w, q[i]);
    }
    SearchComplete(g, Elements(members), start, [start], {start}, g[start], way);
  }

  // ----- The component list -----

  datatype DependencyComponent = DependencyComponent(members: seq<Node>, cyclic: bool, cyclePath: seq<Node>)

  /** One component: an SCC, flagged cyclic when its members lie on cycles, with a cycle path as evidence. */
  ghost predicate RightComponent(g: Graph, c: DependencyComponent) {
    && IsScc(g, c.members)
    && (forall u :: u in c.members ==> (c.cyclic <==> OnCycle(g, u)))
    && (c.cyclePath != [] <==> c.cyclic)
    && (c.cyclic ==> LeastCycle(g, Elements(c.members), c.members[0], c.cyclePath))
  }

  /** The sort key of a component: its smallest member. */
  function First(c: DependencyComponent): Node {
    if c.members == [] then 0 else c.members[0]
  }

  ghost predicate OrderedByFirst(cs: seq<DependencyComponent>) {
    forall i, j :: 0 <= i < j < |cs| ==> First(cs[i]) < First(cs[j])
  }

  /** The components of a graph, least member first: every node lies in exactly one of them. */
  ghost predicate IsComponentList(g: Graph, cs: seq<DependencyComponent>) {
    && OrderedByFirst(cs)
    && (forall c :: c in cs ==> RightComponent(g, c))
    && (forall u :: u in g ==> exists c :: c in cs && u in c.members)
  }

  /** Two nodes share a component exactly when each reaches the other. */
  lemma SharedComponent(g: Graph, cs: seq<DependencyComponent>, i: nat, j: nat, u: Node, v: Node)
    requires IsComponentList(g, cs) && i < |cs| && j < |cs| && u in cs[i].members && v in cs[j].members
    ensures i == j <==> Mutual(g, u, v)
  {
    assert cs[i] in cs && cs[j] in cs;
    var c, d := cs[i].members, cs[j].members;
    if Mutual(g, u, v) {
      assert v in c;
      forall x ensures x in c <==> x in d {
        if x in c { MutualThrough(g, v, x, c, d); }
        if x in d { MutualThrough(g, v, x, d, c); }
      }
      IncreasingUnique(c, d);
      assert First(cs[i]) == First(cs[j]);
    }
  }

  lemma MutualThrough(g: Graph, v: Node, x: Node, c: seq<Node>, d: seq<Node>)
    requires IsScc(g, c) && IsScc(g, d) && v in c && v in d && x in c
    ensures x in d
  {
    assert Mutual(g, v, x);
  }

  /** The graph determines the whole list, cycle paths included. */
  lemma ComponentsUnique(g: Graph, cs: seq<DependencyComponent>, ds: seq<DependencyComponent>)
    requires IsComponentList(g, cs) && IsComponentList(g, ds)
    ensures cs == ds
  {
    forall c ensures c in cs <==> c in ds {
      if c in cs { ComponentIn(g, c, ds); }
      if c in ds { ComponentIn(g, c, cs); }
    }
    OrderedUnique(cs, ds);
  }

  lemma ComponentIn(g: Graph, c: DependencyComponent, ds: seq<DependencyComponent>)
    requires IsComponentList(g, ds) && RightComponent(g, c)
    ensures c in ds
  {
    var u: Node := c.members[0];
    assert u in c.members && u in g;
    var d :| d in ds && u in d.members;
    forall x ensures x in c.members <==> x in d.members {
      if x in c.members { MutualThrough(g, u, x, c.members, d.members); }
      if x in d.members { MutualThrough(g, u, x, d.members, c.members); }
    }
    IncreasingUnique(c.members, d.members);
    SameComponent(g, c, d);
  }

  lemma SameComponent(g: Graph, c: DependencyComponent, d: DependencyComponent)
    requires RightComponent(g, c) && RightComponent(g, d) && c.members == d.members
    ensures c == d
  {
    assert c.members[0] in c.members;
    assert c.cyclic == d.cyclic;
    if c.cyclic {
      LeastCycleUnique(g, Elements(c.members), c.members[0], c.cyclePath, d.cyclePath);
    }
  }

  lemma {:induction false} OrderedUnique(cs: seq<DependencyComponent>, ds: seq<DependencyComponent>)
    requires OrderedByFirst(cs) && OrderedByFirst(ds)
    requires forall c :: c in cs <==> c in ds
    ensures cs == ds
  {
    assert ds != [] ==> ds[0] in ds;
    if cs != [] {
      assert cs[0] in cs && ds != [] && cs[0] in ds && ds[0] in cs;
      assert cs[0] == ds[0];
      forall c ensures c in cs[1..] <==> c in ds[1..] {
        assert c in cs <==> c == cs[0] || c in cs[1..];
        assert c in ds <==> c == ds[0] || c in ds[1..];
      }
      OrderedUnique(cs[1..], ds[1..]);
      assert cs == [cs[0]] + cs[1..] && ds == [ds[0]] + ds[1..];
    }
  }

  function Insert(c: DependencyComponent, cs: seq<DependencyComponent>): seq<DependencyComponent> {
    if cs == [] || First(c) <= First(cs[0]) then [c] + cs else [cs[0]] + Insert(c, cs[1..])
  }

  /** `sorted(components, key=lambda component: _node_key(component.members[0]))` */
  function SortComponents(cs: seq<DependencyComponent>): seq<DependencyComponent> {
    if cs == [] then [] else Insert(cs[0], SortComponents(cs[1..]))
  }

  lemma {:induction false} InsertMembers(c: DependencyComponent, cs: seq<DependencyComponent>)
    ensures forall d :: d in Insert(c, cs) <==> d == c || d in cs
  {
    if cs != [] {
      InsertMembers(c, cs[1..]);
      assert cs == [cs[0]] + cs[1..];
    }
  }

  lemma {:induction false} InsertKeepsOrder(c: DependencyComponent, cs: seq<DependencyComponent>)
    requires OrderedByFirst(cs) && forall d :: d in cs ==> First(d) != First(c)
    ensures OrderedByFirst(Insert(c, cs))
  {
    if cs != [] && First(cs[0]) < First(c) {
      assert forall d :: d in cs[1..] ==> d in cs;
      InsertKeepsOrder(c, cs[1..]);
      InsertMembers(c, cs[1..]);
      var rest := Insert(c, cs[1..]);
      forall i | 0 <= i < |rest| ensures First(cs[0]) < First(rest[i]) {
        assert rest[i] in rest;
      }
    }
  }

  lemma {:induction false} SortIsOrdered(cs: seq<DependencyComponent>)
    requires forall i, j :: 0 <= i < j < |cs| ==> First(cs[i]) != First(cs[j])
    ensures OrderedByFirst(SortComponents(cs))
    ensures forall c :: c in SortComponents(cs) <==> c in cs
  {
    if cs != [] {
      SortIsOrdered(cs[1..]);
      InsertMembers(cs[0], SortComponents(cs[1..]));
      InsertKeepsOrder(cs[0], SortComponents(cs[1..]));
      assert cs == [cs[0]] + cs[1..];
    }
  }

  function MakeComponent(g: Graph, members: seq<Node>): DependencyComponent
    requires members != [] && Elements(members) <= g.Keys
  {
    assert members[0] in Elements(members);
    var cyclic := IsCyclic(g, members);
    DependencyComponent(members, cyclic, if cyclic then FindComponentCycle(members, g) else [])
  }

  lemma MakeComponentIsRight(g: Graph, members: seq<Node>)
    requires WellFormed(g) && IsScc(g, members)
    ensures Elements(members) <= g.Keys && RightComponent(g, MakeComponent(g, members))
  {
    CycleFound(g, members);
    forall u | u in members ensures IsCyclic(g, members) <==> OnCycle(g, u) { CyclicMeansOnCycle(g, members, u); }
  }

  /** The components built so far, one for each member list. */
  ghost predicate Built(g: Graph, lists: seq<seq<Node>>, cs: seq<DependencyComponent>) {
    |cs| <= |lists| && forall i :: 0 <= i < |cs| ==> RightComponent(g, cs[i]) && cs[i].members == lists[i]
  }

  lemma BuildNext(g: Graph, lists: seq<seq<Node>>, cs: seq<DependencyComponent>, c: DependencyComponent)
    requires Built(g, lists, cs) && |cs| < |lists| && RightComponent(g, c) && c.members == lists[|cs|]
    ensures Built(g, lists, cs + [c])
  {
    var next := cs + [c];
    forall i | 0 <= i < |next| ensures RightComponent(g, next[i]) && next[i].members == lists[i] {
      if i < |cs| {
        assert next[i] == cs[i];
      } else {
        assert next[i] == c;
      }
    }
  }

  lemma PartitionIsComponentList(g: Graph, lists: seq<seq<Node>>, cs: seq<DependencyComponent>)
    requires WellFormed(g) && IsSccPartition(g, lists) && Built(g, lists, cs) && |cs| == |lists|
    ensures IsComponentList(g, SortComponents(cs))
  {
    forall i, j | 0 <= i < j < |cs| ensures First(cs[i]) != First(cs[j]) {
      assert lists[i][0] in lists[i] && lists[j][0] in lists[j];
    }
    SortIsOrdered(cs);
    forall u | u in g ensures exists c :: c in SortComponents(cs) && u in c.members {
      var i :| 0 <= i < |lists| && u in lists[i];
      assert cs[i] in cs;
    }
  }

  /** Tarjan's components, each with its flag and cycle path, sorted by smallest member. */
  method StronglyConnectedComponents(nodes: seq<Node>, g: Graph) returns (components: seq<DependencyComponent>)
    requires WellFormed(g) && Elements(nodes) == g.Keys
    ensures IsComponentList(g, components)
  {
    var lists := ComponentMembers(nodes, g);
    components := [];
    for k := 0 to |lists|
      invariant |components| == k && Built(g, lists, components)
    {
      MakeComponentIsRight(g, lists[k]);
      var component := MakeComponent(g, lists[k]);
      BuildNext(g, lists, components, component);
      components := components + [component];
    }
    PartitionIsComponentList(g, lists, components);
    components := SortComponents(components);
  }
}
