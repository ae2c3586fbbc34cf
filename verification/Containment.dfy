/** Containment validation: reject cycles, otherwise order parents before children, least node first. */
module Containment {
  import opened Ordering
  import opened Digraph
  import opened Edges
  import opened DirectedCycle

  datatype ContainmentResult =
    | ContainmentCycle(path: seq<Node>)
    | ContainmentAnalysis(nodes: seq<Node>, topologicalOrder: seq<Node>)

  ghost predicate IsTopologicalOrder(g: Graph, order: seq<Node>) {
    && Distinct(order) && Elements(order) == g.Keys
    && forall i, j :: 0 <= i < |order| && 0 <= j < |order| && Edge(g, order[i], order[j]) ==> i < j
  }

  /** A node that may come next: not placed yet, all its parents placed. */
  ghost predicate Available(g: Graph, done: set<Node>, v: Node) {
    v in g && v !in done && Preds(g, g.Keys - done, v) == {}
  }

  /** Position `i` holds the least node available after the first `i`. */
  ghost predicate GreedyAt(g: Graph, order: seq<Node>, i: nat)
    requires i < |order|
  {
    && Available(g, Elements(order[..i]), order[i])
    && forall v :: Available(g, Elements(order[..i]), v) ==> order[i] <= v
  }

  ghost predicate Greedy(g: Graph, order: seq<Node>) {
    forall i :: 0 <= i < |order| ==> GreedyAt(g, order, i)
  }

  // ----- In-degrees -----

  /** `degree` counts, for every node, its predecessors in `s`, and one more for the nodes of `extra`. */
  ghost predicate Counts(g: Graph, s: set<Node>, degree: map<Node, nat>, extra: seq<Node>) {
    && degree.Keys == g.Keys
    && forall v :: v in g ==> degree[v] == |Preds(g, s, v)| + if v in extra then 1 else 0
  }

  /** Counting the targets of `u` one by one amounts to admitting `u` among the predecessors. */
  lemma CountsGrow(g: Graph, s: set<Node>, u: Node, degree: map<Node, nat>)
    requires u !in s && u in g
    ensures Counts(g, s, degree, g[u]) <==> Counts(g, s + {u}, degree, [])
  {
    forall v
      ensures |Preds(g, s + {u}, v)| == |Preds(g, s, v)| + if v in g[u] then 1 else 0
    {
      assert Preds(g, s + {u}, v) == Preds(g, s, v) + if Edge(g, u, v) then {u} else {};
    }
  }

  lemma CountsIncrement(g: Graph, s: set<Node>, degree: map<Node, nat>, targets: seq<Node>, j: nat)
    requires Distinct(targets) && j < |targets| && targets[j] in g
    requires Counts(g, s, degree, targets[..j])
    ensures Counts(g, s, degree[targets[j] := degree[targets[j]] + 1], targets[..j + 1])
  {
    assert targets[..j + 1] == targets[..j] + [targets[j]];
  }

  lemma CountsDecrement(g: Graph, s: set<Node>, degree: map<Node, nat>, targets: seq<Node>, j: nat)
    requires Distinct(targets) && j < |targets| && targets[j] in g
    requires Counts(g, s, degree, targets[j..])
    ensures degree[targets[j]] > 0
    ensures Counts(g, s, degree[targets[j] := degree[targets[j]] - 1], targets[j + 1..])
  {
    var target: Node := targets[j];
    assert targets[j..] == [target] + targets[j + 1..];
    assert target in targets[j..] && target !in targets[j + 1..];
  }

  /** The inner loop of the count: one increment for every target of `node`. */
  method CountTargets(g: Graph, ghost s: set<Node>, node: Node, before: map<Node, nat>)
    returns (degree: map<Node, nat>)
    requires WellFormed(g) && node in g
    requires Counts(g, s, before, [])
    ensures Counts(g, s, degree, g[node])
  {
    degree := before;
    var targets := g[node];
    for j := 0 to |targets|
      invariant Counts(g, s, degree, targets[..j])
    {
      assert Edge(g, node, targets[j]);
      CountsIncrement(g, s, degree, targets, j);
      degree := degree[targets[j] := degree[targets[j]] + 1];
    }
    assert targets[..|targets|] == targets;
  }

  lemma NextNode(nodes: seq<Node>, i: nat)
    requires Increasing(nodes) && i < |nodes|
    ensures nodes[i] !in Elements(nodes[..i]) && nodes[i] in Elements(nodes)
    ensures Elements(nodes[..i + 1]) == Elements(nodes[..i]) + {nodes[i]}
  {
  }

  /** One increment for every entry of every target list. */
  method InDegrees(nodes: seq<Node>, g: Graph) returns (degree: map<Node, nat>)
    requires WellFormed(g) && Increasing(nodes) && Elements(nodes) == g.Keys
    ensures Counts(g, g.Keys, degree, [])
  {
    degree := map n | n in g.Keys :: 0;
    ghost var seen := {};
    for i := 0 to |nodes|
      invariant seen == Elements(nodes[..i])
      invariant Counts(g, seen, degree, [])
    {
      NextNode(nodes, i);
      degree := CountTargets(g, seen, nodes[i], degree);
      CountsGrow(g, seen, nodes[i], degree);
      seen := seen + {nodes[i]};
    }
    assert nodes[..|nodes|] == nodes;
  }

  // ----- Kahn's algorithm -----

  /** `ready` is the sorted list of the nodes whose remaining in-degree is zero. */
  ghost predicate ReadyInvariant(g: Graph, done: set<Node>, degree: map<Node, nat>, ready: seq<Node>)
    requires degree.Keys == g.Keys
  {
    && Increasing(ready)
    && (forall v :: v in ready <==> v in g && v !in done && degree[v] == 0)
  }

  /** A prefix of the greedy order, with parents placed before their children. */
  ghost predicate PlacedInvariant(g: Graph, order: seq<Node>) {
    && Distinct(order) && Elements(order) <= g.Keys && Greedy(g, order)
    && forall v :: v in order ==> Preds(g, g.Keys - Elements(order), v) == {}
  }

  lemma PlaceNode(g: Graph, order: seq<Node>, node: Node)
    requires PlacedInvariant(g, order)
    requires Available(g, Elements(order), node)
    requires forall v :: Available(g, Elements(order), v) ==> node <= v
    ensures PlacedInvariant(g, order + [node])
    ensures Elements(order + [node]) == Elements(order) + {node}
    ensures forall v :: Edge(g, node, v) ==> v !in order + [node]
    ensures |order| < |g.Keys|
  {
    var next := order + [node];
    assert Elements(next) == Elements(order) + {node};
    assert forall i :: 0 <= i < |order| ==> order[i] in Elements(order);
    forall i | 0 <= i < |next| ensures GreedyAt(g, next, i) {
      assert next[..i] == order[..i];
      if i == |order| {
        assert order[..i] == order;
      } else {
        assert GreedyAt(g, order, i);
      }
    }
    forall v | v in next ensures Preds(g, g.Keys - Elements(next), v) == {} {
      assert Preds(g, g.Keys - Elements(next), v) <= Preds(g, g.Keys - Elements(order), v);
    }
    forall v | Edge(g, node, v) ensures v !in next {
      assert node in Preds(g, g.Keys - Elements(order), v);
    }
    DistinctBound(next, g.Keys);
  }

  /** The ready list holds exactly the available nodes. */
  lemma ReadyIsAvailable(g: Graph, done: set<Node>, degree: map<Node, nat>, ready: seq<Node>, v: Node)
    requires Counts(g, g.Keys - done, degree, [])
    requires ReadyInvariant(g, done, degree, ready)
    ensures v in ready <==> Available(g, done, v)
  {
    if v in g {
      assert degree[v] == |Preds(g, g.Keys - done, v)|;
    }
  }

  lemma PopReady(g: Graph, done: set<Node>, degree: map<Node, nat>, ready: seq<Node>)
    requires Counts(g, g.Keys - done, degree, [])
    requires ReadyInvariant(g, done, degree, ready) && ready != []
    ensures Available(g, done, ready[0])
    ensures forall v :: Available(g, done, v) ==> ready[0] <= v
    ensures ReadyInvariant(g, done + {ready[0]}, degree, ready[1..])
  {
    var first: Node := ready[0];
    assert first in ready;
    ReadyIsAvailable(g, done, degree, ready, first);
    forall v | Available(g, done, v) ensures first <= v {
      ReadyIsAvailable(g, done, degree, ready, v);
      var k :| 0 <= k < |ready| && ready[k] == v;
    }
    RestReady(g, done, degree, ready);
  }

  lemma RestReady(g: Graph, done: set<Node>, degree: map<Node, nat>, ready: seq<Node>)
    requires degree.Keys == g.Keys && ReadyInvariant(g, done, degree, ready) && ready != []
    ensures ReadyInvariant(g, done + {ready[0]}, degree, ready[1..])
  {
    var first: Node := ready[0];
    assert ready == [first] + ready[1..];
    assert forall v :: v in ready <==> v == first || v in ready[1..];
    assert first !in ready[1..];
  }

  /** The state between two iterations of the main loop. */
  ghost predicate KahnInvariant(g: Graph, order: seq<Node>, degree: map<Node, nat>, ready: seq<Node>) {
    && PlacedInvariant(g, order)
    && Counts(g, g.Keys - Elements(order), degree, [])
    && ReadyInvariant(g, Elements(order), degree, ready)
  }

  /** Taking the first ready node is the greedy choice. */
  lemma TakeReady(g: Graph, order: seq<Node>, degree: map<Node, nat>, ready: seq<Node>)
    requires KahnInvariant(g, order, degree, ready) && ready != []
    ensures var next := order + [ready[0]];
            && PlacedInvariant(g, next) && ready[0] in g && |order| < |g.Keys|
            && (forall v :: Edge(g, ready[0], v) ==> v !in Elements(next))
            && Counts(g, g.Keys - Elements(next), degree, g[ready[0]])
            && ReadyInvariant(g, Elements(next), degree, ready[1..])
  {
    var done, node := Elements(order), ready[0];
    PopReady(g, done, degree, ready);
    PlaceNode(g, order, node);
    assert g.Keys - done == g.Keys - (done + {node}) + {node};
    CountsGrow(g, g.Keys - (done + {node}), node, degree);
  }

  /** The inner loop of Kahn's algorithm: targets whose last parent was `node` join the ready list. */
  method ReleaseTargets(g: Graph, ghost done: set<Node>, node: Node, degreeBefore: map<Node, nat>, readyBefore: seq<Node>)
    returns (degree: map<Node, nat>, ready: seq<Node>)
    requires WellFormed(g) && node in g
    requires forall v :: Edge(g, node, v) ==> v !in done
    requires Counts(g, g.Keys - done, degreeBefore, g[node])
    requires ReadyInvariant(g, done, degreeBefore, readyBefore)
    ensures Counts(g, g.Keys - done, degree, [])
    ensures ReadyInvariant(g, done, degree, ready)
  {
    degree, ready := degreeBefore, readyBefore;
    var targets := g[node];
    for j := 0 to |targets|
      invariant Counts(g, g.Keys - done, degree, targets[j..])
      invariant ReadyInvariant(g, done, degree, ready)
    {
      var target := targets[j];
      assert Edge(g, node, target);
      CountsDecrement(g, g.Keys - done, degree, targets, j);
      degree := degree[target := degree[target] - 1];
      if degree[target] == 0 {
        ready := SortedNodes((set v | v in ready) + {target});
      }
    }
  }

  /** In an acyclic graph something is ready as long as something is left. */
  lemma AllPlaced(g: Graph, done: set<Node>, degree: map<Node, nat>)
    requires WellFormed(g) && Acyclic(g) && done <= g.Keys
    requires Counts(g, g.Keys - done, degree, [])
    requires ReadyInvariant(g, done, degree, [])
    ensures done == g.Keys
  {
    if done != g.Keys {
      var v := PickMissing(g.Keys, done);
      var source := SourceBehind(g, g.Keys - done, [v]);
    }
  }

  method KahnOrder(nodes: seq<Node>, g: Graph) returns (order: seq<Node>)
    requires WellFormed(g) && Acyclic(g) && Increasing(nodes) && Elements(nodes) == g.Keys
    ensures Distinct(order) && Elements(order) == g.Keys && Greedy(g, order)
  {
    var degree := InDegrees(nodes, g);
    var ready := SortedNodes(set v | v in degree && degree[v] == 0);
    order := [];
    assert g.Keys - Elements(order) == g.Keys;
    while ready != []
      invariant KahnInvariant(g, order, degree, ready)
      decreases |g.Keys| - |order|
    {
      TakeReady(g, order, degree, ready);
      var node := ready[0];
      ready := ready[1..];
      order := order + [node];
      degree, ready := ReleaseTargets(g, Elements(order), node, degree, ready);
    }
    AllPlaced(g, Elements(order), degree);
  }

  /** The greedy order is topological. */
  lemma GreedyIsTopological(g: Graph, order: seq<Node>)
    requires WellFormed(g) && Distinct(order) && Elements(order) == g.Keys && Greedy(g, order)
    ensures IsTopologicalOrder(g, order)
  {
    forall i, j | 0 <= i < |order| && 0 <= j < |order| && Edge(g, order[i], order[j]) ensures i < j {
      assert GreedyAt(g, order, j);
      assert order[i] in Elements(order);
      assert order[i] !in Preds(g, g.Keys - Elements(order[..j]), order[j]);
      var k :| 0 <= k < j && order[..j][k] == order[i];
    }
  }

  lemma PlacedParents(g: Graph, order: seq<Node>, i: nat)
    requires WellFormed(g) && IsTopologicalOrder(g, order) && i < |order|
    ensures Available(g, Elements(order[..i]), order[i])
  {
    assert order[i] in Elements(order);
    forall u | u in g && Edge(g, u, order[i]) ensures u in order[..i] {
      assert u in Elements(order);
      var k :| 0 <= k < |order| && order[k] == u;
      assert order[..i][k] == u;
    }
  }

  /** The greedy order is lexicographically least among all topological orders. */
  lemma GreedyIsLeast(g: Graph, order: seq<Node>, other: seq<Node>)
    requires WellFormed(g) && Distinct(order) && Elements(order) == g.Keys && Greedy(g, order)
    requires IsTopologicalOrder(g, other)
    ensures order == other || LexLess(order, other)
  {
    DistinctCount(order);
    DistinctCount(other);
    LexTotal(order, other);
    if i :| 0 <= i < |other| && FirstDifferenceLess(other, order, i) {
      assert GreedyAt(g, order, i);
      var done := Elements(order[..i]);
      assert done == Elements(other[..i]);
      assert other[i] in Elements(other);
      PlacedParents(g, other, i);
      assert false;
    }
  }

  lemma LeastOrder(g: Graph, order: seq<Node>)
    requires WellFormed(g) && Distinct(order) && Elements(order) == g.Keys && Greedy(g, order)
    ensures IsTopologicalOrder(g, order)
    ensures forall other :: IsTopologicalOrder(g, other) ==> order == other || LexLess(order, other)
  {
    GreedyIsTopological(g, order);
    forall other | IsTopologicalOrder(g, other) ensures order == other || LexLess(order, other) {
      GreedyIsLeast(g, order, other);
    }
  }

  /** A cycle exactly if there is one, the first met from the nodes in order; otherwise the nodes and their least topological order. */
  ghost predicate RightResult(g: Graph, nodes: seq<Node>, r: ContainmentResult) {
    && (r.ContainmentCycle? <==> !Acyclic(g))
    && (r.ContainmentCycle? ==> IsCycle(g, r.path) && FindsAmong(g, [], nodes, r.path))
    && (r.ContainmentAnalysis? ==>
          && r.nodes == nodes && IsTopologicalOrder(g, r.topologicalOrder)
          && forall other :: IsTopologicalOrder(g, other) ==> r.topologicalOrder == other || LexLess(r.topologicalOrder, other))
  }

  method OrderOrCycle(nodes: seq<Node>, g: Graph) returns (r: ContainmentResult)
    requires WellFormed(g) && Increasing(nodes) && Elements(nodes) == g.Keys
    ensures RightResult(g, nodes, r)
  {
    var cycle := FindDirectedCycle(nodes, g);
    if cycle != [] {
      return ContainmentCycle(cycle);
    }
    var order := KahnOrder(nodes, g);
    LeastOrder(g, order);
    r := ContainmentAnalysis(nodes, order);
  }

  /** The validator fails exactly on a containment cycle; otherwise it returns the least topological order of all ends of contains edges. */
  method ValidateContainmentDag(edges: seq<TypedEdge>) returns (r: ContainmentResult)
    ensures var contains := OfType(edges, Contains);
            RightResult(AdjacencyOf(Endpoints(contains), contains), SortedNodes(Endpoints(contains)), r)
  {
    var contains := OfType(edges, Contains);
    var nodes := NodesFromEdges(contains);
    var g := Adjacency(nodes, contains);
    FullTable(nodes, contains);
    r := OrderOrCycle(nodes, g);
  }

  lemma FullTable(nodes: seq<Node>, edges: seq<TypedEdge>)
    requires Increasing(nodes) && Elements(nodes) == Endpoints(edges)
    ensures nodes == SortedNodes(Endpoints(edges))
    ensures WellFormed(AdjacencyOf(Endpoints(edges), edges)) && AdjacencyOf(Endpoints(edges), edges).Keys == Elements(nodes)
  {
    AdjacencyMeaning(Endpoints(edges), edges);
    assert forall n :: n in nodes <==> n in Elements(nodes);
    IncreasingUnique(nodes, SortedNodes(Endpoints(edges)));
  }

  /** The graph validated: exactly the ends of contains edges, an edge exactly where one leads. */
  lemma ContainmentGraph(edges: seq<TypedEdge>)
    ensures var contains := OfType(edges, Contains);
            var g := AdjacencyOf(Endpoints(contains), contains);
            && (forall u, v :: Edge(g, u, v) <==> exists e :: e in edges && e.edgeType == Contains && e.source == u && e.target == v)
            && (forall n :: n in g <==> exists e :: e in edges && e.edgeType == Contains && (n == e.source || n == e.target))
            && (forall n :: n in SortedNodes(Endpoints(contains)) <==> n in g)
  {
    var contains := OfType(edges, Contains);
    OfTypeMembers(edges, Contains);
    AdjacencyMeaning(Endpoints(contains), contains);
    var g := AdjacencyOf(Endpoints(contains), contains);
    forall u, v ensures Edge(g, u, v) <==> exists e :: e in edges && e.edgeType == Contains && e.source == u && e.target == v {
      if e :| e in contains && e.source == u && e.target == v { assert e in edges; }
      if e :| e in edges && e.edgeType == Contains && e.source == u && e.target == v { assert e in contains; }
    }
    forall n ensures n in g <==> exists e :: e in edges && e.edgeType == Contains && (n == e.source || n == e.target) {
      if e :| e in contains && (n == e.source || n == e.target) { assert e in edges; }
      if e :| e in edges && e.edgeType == Contains && (n == e.source || n == e.target) { assert e in contains; }
    }
  }
}
