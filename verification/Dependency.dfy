/** Quarantine of cyclic dependency components and the facts derived from what is left. */
module Dependency {
  import opened Ordering
  import opened Digraph
  import opened Edges
  import opened Resources
  import opened Tarjan
  import opened Components
  import opened Containment
  import opened ShortestPaths

  datatype Blockers = Blockers(target: Node, sources: seq<Node>)

  datatype FanOut = FanOut(node: Node, count: nat)

  datatype RootCauses = RootCauses(target: Node, paths: seq<seq<Node>>)

  datatype Projection = Projection(evaluable: seq<Node>, hard: seq<Blockers>, soft: seq<Blockers>,
                                   fanOut: seq<FanOut>, rootCauses: seq<RootCauses>)

  /** What an attention record on an invalid component renders: its members and its cycle. */
  datatype Attention = Attention(members: seq<Node>, cyclePath: seq<Node>)

  datatype Analysis = Analysis(components: seq<DependencyComponent>, invalid: seq<DependencyComponent>, projection: Projection,
                               attention: seq<Attention>)

  datatype AnalysisResult = NotWorkItems | Analyzed(analysis: Analysis)

  // ----- Blockers -----

  function SourcesOf(edges: seq<TypedEdge>, subtype: BlockSubtype, n: Node): set<Node> {
    set e | e in edges && e.target == n && e.subtype == Subtype(subtype) :: e.source
  }

  /** For every node in order, its blockers of one subtype in order. */
  function BlockerIndexOf(nodes: seq<Node>, edges: seq<TypedEdge>, subtype: BlockSubtype): seq<Blockers> {
    seq(|nodes|, i requires 0 <= i < |nodes| => Blockers(nodes[i], SortedNodes(SourcesOf(edges, subtype, nodes[i]))))
  }

  method BlockerIndex(nodes: seq<Node>, edges: seq<TypedEdge>, subtype: BlockSubtype) returns (index: seq<Blockers>)
    requires Increasing(nodes) && Endpoints(edges) <= Elements(nodes)
    ensures index == BlockerIndexOf(nodes, edges, subtype)
  {
    var blockers: map<Node, set<Node>> := map n | n in Elements(nodes) :: {};
    for i := 0 to |edges|
      invariant SourceTable(nodes, edges[..i], subtype, blockers)
    {
      EnterSource(nodes, edges[..i], edges[i], subtype, blockers);
      assert edges[..i + 1] == edges[..i] + [edges[i]];
      assert edges[i] in edges && edges[i].target in Endpoints(edges);
      if edges[i].subtype == Subtype(subtype) {
        blockers := blockers[edges[i].target := blockers[edges[i].target] + {edges[i].source}];
      }
    }
    assert edges[..|edges|] == edges;
    index := seq(|nodes|, i requires 0 <= i < |nodes| && nodes[i] in blockers => Blockers(nodes[i], SortedNodes(blockers[nodes[i]])));
  }

  ghost predicate SourceTable(nodes: seq<Node>, edges: seq<TypedEdge>, subtype: BlockSubtype, blockers: map<Node, set<Node>>) {
    && (forall i :: 0 <= i < |nodes| ==> nodes[i] in blockers)
    && (forall n :: n in blockers <==> n in nodes)
    && (forall n :: n in blockers ==> blockers[n] == SourcesOf(edges, subtype, n))
  }

  lemma EnterSource(nodes: seq<Node>, edges: seq<TypedEdge>, e: TypedEdge, subtype: BlockSubtype, blockers: map<Node, set<Node>>)
    requires SourceTable(nodes, edges, subtype, blockers) && e.target in blockers
    ensures SourceTable(nodes, edges + [e], subtype,
                        if e.subtype == Subtype(subtype) then blockers[e.target := blockers[e.target] + {e.source}] else blockers)
  {
    assert e in edges + [e];
    forall n
      ensures SourcesOf(edges + [e], subtype, n) ==
              SourcesOf(edges, subtype, n) + if e.target == n && e.subtype == Subtype(subtype) then {e.source} else {}
    {
      assert forall x :: x in edges + [e] <==> x in edges || x == e;
    }
  }

  // ----- Fan-out -----

  /** The nodes reachable from `u` by a non-empty path. */
  ghost function Downstream(g: Graph, u: Node): set<Node> {
    set t | t in g && ReachesPlus(g, u, t)
  }

  ghost predicate Found(g: Graph, source: Node, found: set<Node>, pending: seq<Node>) {
    && found <= g.Keys
    && (forall t :: t in found || t in pending ==> ReachesPlus(g, source, t))
    && (forall t :: t in pending ==> t in g)
    && (forall t :: Edge(g, source, t) ==> t in found || t in pending)
    && (forall x, t :: x in found && Edge(g, x, t) ==> t in found || t in pending)
  }

  lemma FoundNext(g: Graph, source: Node, found: set<Node>, pending: seq<Node>)
    requires WellFormed(g) && Found(g, source, found, pending) && pending != []
    ensures var t, rest := pending[|pending| - 1], pending[..|pending| - 1];
            && t in g
            && if t in found then Found(g, source, found, rest) else Found(g, source, found + {t}, rest + g[t])
  {
    var t, rest := pending[|pending| - 1], pending[..|pending| - 1];
    assert pending == rest + [t];
    forall v | Edge(g, t, v) ensures ReachesPlus(g, source, v) && v in g {
      ReachesEdge(g, t, v);
      ReachesTransitive(g, source, t, v);
    }
  }

  method ReachableFrom(source: Node, g: Graph) returns (found: set<Node>)
    requires WellFormed(g) && source in g
    ensures found == Downstream(g, source)
  {
    found := {};
    var pending := g[source];
    forall t | t in pending ensures ReachesPlus(g, source, t) && t in g { ReachesEdge(g, source, t); assert Edge(g, source, t); }
    while pending != []
      invariant Found(g, source, found, pending)
      decreases |g.Keys - found|, |pending|
    {
      FoundNext(g, source, found, pending);
      var target := pending[|pending| - 1];
      pending := pending[..|pending| - 1];
      if target !in found {
        FewerLeft(g.Keys, found, found + {target}, target);
        found := found + {target};
        pending := pending + g[target];
      }
    }
    forall t | ReachesPlus(g, source, t) ensures t in found {
      var w := FirstStep(g, source, t);
      ClosedContainsReachable(g, found, w, t);
    }
  }

  /** A blocker has strictly more downstream nodes than anything it blocks. */
  lemma FanOutDecreases(g: Graph, u: Node, v: Node)
    requires WellFormed(g) && Acyclic(g) && Edge(g, u, v)
    ensures Downstream(g, v) < Downstream(g, u)
    ensures |Downstream(g, v)| < |Downstream(g, u)|
  {
    ReachesEdge(g, u, v);
    forall t | t in Downstream(g, v) ensures t in Downstream(g, u) {
      ReachesTransitive(g, u, v, t);
    }
    assert v in g && v in Downstream(g, u) && v !in Downstream(g, v);
    SubsetSize(Downstream(g, v) + {v}, Downstream(g, u));
  }

  // ----- Root causes -----

  /** A root is a node without predecessors. */
  ghost predicate IsRoot(g: Graph, u: Node) {
    u in g && Preds(g, g.Keys, u) == {}
  }

  /** One least path for every listed root that reaches the target, in the order of the roots. */
  ghost predicate CausePaths(g: Graph, roots: seq<Node>, target: Node, paths: seq<seq<Node>>) {
    if roots == [] then paths == []
    else if Reaches(g, roots[0], target) then
      paths != [] && LeastPath(g, roots[0], target, paths[0]) && CausePaths(g, roots[1..], target, paths[1..])
    else
      CausePaths(g, roots[1..], target, paths)
  }

  lemma {:induction false} CausePathsUnique(g: Graph, roots: seq<Node>, target: Node, p: seq<seq<Node>>, q: seq<seq<Node>>)
    requires CausePaths(g, roots, target, p) && CausePaths(g, roots, target, q)
    ensures p == q
  {
    if roots != [] {
      if Reaches(g, roots[0], target) {
        LeastPathUnique(g, roots[0], target, p[0], q[0]);
        CausePathsUnique(g, roots[1..], target, p[1..], q[1..]);
        assert p == [p[0]] + p[1..] && q == [q[0]] + q[1..];
      } else {
        CausePathsUnique(g, roots[1..], target, p, q);
      }
    }
  }

  /** Each listed path starts at a listed root and ends at the target; a root that reaches the target has its path. */
  lemma {:induction false} CausePathsMeaning(g: Graph, roots: seq<Node>, target: Node, paths: seq<seq<Node>>)
    requires CausePaths(g, roots, target, paths)
    ensures forall p :: p in paths ==> IsPath(g, p) && p[0] in roots && LeastPath(g, p[0], target, p)
    ensures forall r :: r in roots && Reaches(g, r, target) ==> exists p :: p in paths && LeastPath(g, r, target, p)
  {
    if roots != [] {
      assert roots == [roots[0]] + roots[1..];
      if Reaches(g, roots[0], target) {
        CausePathsMeaning(g, roots[1..], target, paths[1..]);
        assert paths == [paths[0]] + paths[1..];
        assert paths[0] in paths;
      } else {
        CausePathsMeaning(g, roots[1..], target, paths);
      }
    }
  }

  ghost predicate RootList(g: Graph, roots: seq<Node>) {
    Increasing(roots) && forall u :: u in roots <==> IsRoot(g, u)
  }

  ghost predicate RightRootCauses(g: Graph, nodes: seq<Node>, index: seq<RootCauses>) {
    && |index| == |nodes|
    && forall i :: 0 <= i < |nodes| ==>
                     index[i].target == nodes[i] &&
                     forall roots :: RootList(g, roots) ==> CausePaths(g, roots, nodes[i], index[i].paths)
  }

  /** Every node of an acyclic graph has at least one root cause, and its paths start at nodes nobody blocks. */
  lemma RootCauseExists(g: Graph, nodes: seq<Node>, index: seq<RootCauses>, i: nat)
    requires WellFormed(g) && Acyclic(g) && Elements(nodes) == g.Keys
    requires RightRootCauses(g, nodes, index) && i < |nodes|
    ensures index[i].paths != []
    ensures forall p :: p in index[i].paths ==> p != [] && Walk(g, p, p[0], nodes[i]) && IsRoot(g, p[0])
  {
    var roots := SortedNodes(set u | u in g && Preds(g, g.Keys, u) == {});
    assert RootList(g, roots);
    assert nodes[i] in Elements(nodes);
    var q := SourceBehind(g, g.Keys, [nodes[i]]);
    assert Walk(g, q, q[0], nodes[i]) && IsRoot(g, q[0]);
    CausePathsMeaning(g, roots, nodes[i], index[i].paths);
  }

  /** A table of least paths for every root. */
  ghost predicate PathTables(g: Graph, roots: seq<Node>, tables: map<Node, map<Node, seq<Node>>>) {
    forall r :: r in roots ==> r in tables && LeastPaths(g, r, tables[r])
  }

  /** For one target: the stored path of every root that has one. */
  function CollectPaths(roots: seq<Node>, tables: map<Node, map<Node, seq<Node>>>, target: Node): seq<seq<Node>>
    requires forall r :: r in roots ==> r in tables
  {
    if roots == [] then []
    else
      var root: Node := roots[0];
      assert root in roots && forall r :: r in roots[1..] ==> r in roots;
      (if target in tables[root] then [tables[root][target]] else []) + CollectPaths(roots[1..], tables, target)
  }

  lemma {:induction false} CollectedPaths(g: Graph, roots: seq<Node>, tables: map<Node, map<Node, seq<Node>>>, target: Node)
    requires PathTables(g, roots, tables)
    ensures CausePaths(g, roots, target, CollectPaths(roots, tables, target))
  {
    if roots != [] {
      var root: Node := roots[0];
      assert root in roots && forall r :: r in roots[1..] ==> r in roots;
      CollectedPaths(g, roots[1..], tables, target);
      assert target in tables[root] <==> Reaches(g, root, target);
      var rest := CollectPaths(roots[1..], tables, target);
      if target in tables[root] {
        assert CollectPaths(roots, tables, target) == [tables[root][target]] + rest;
      } else {
        assert CollectPaths(roots, tables, target) == rest;
      }
    }
  }

  method BuildPathTables(roots: seq<Node>, g: Graph) returns (tables: map<Node, map<Node, seq<Node>>>)
    requires WellFormed(g) && forall r :: r in roots ==> r in g
    ensures PathTables(g, roots, tables)
  {
    tables := map[];
    for k := 0 to |roots|
      invariant PathTables(g, roots[..k], tables)
    {
      var root := roots[k];
      assert root in roots;
      var paths := ShortestPaths.ShortestPaths(root, g);
      tables := tables[root := paths];
      assert roots[..k + 1] == roots[..k] + [root];
    }
    assert roots[..|roots|] == roots;
  }

  method RootCauseIndex(nodes: seq<Node>, g: Graph) returns (index: seq<RootCauses>)
    requires WellFormed(g) && Increasing(nodes) && Elements(nodes) == g.Keys
    ensures RightRootCauses(g, nodes, index)
  {
    var degree := InDegrees(nodes, g);
    var roots := SortedNodes(set u | u in degree && degree[u] == 0);
    RootsAre(g, degree, roots);
    var tables := BuildPathTables(roots, g);
    index := CollectAll(nodes, roots, tables);
    IndexIsRight(g, nodes, roots, tables, index);
  }

  /** The collected paths of every target. */
  function CollectAll(nodes: seq<Node>, roots: seq<Node>, tables: map<Node, map<Node, seq<Node>>>): seq<RootCauses>
    requires forall r :: r in roots ==> r in tables
  {
    seq(|nodes|, i requires 0 <= i < |nodes| => RootCauses(nodes[i], CollectPaths(roots, tables, nodes[i])))
  }

  lemma IndexIsRight(g: Graph, nodes: seq<Node>, roots: seq<Node>, tables: map<Node, map<Node, seq<Node>>>, index: seq<RootCauses>)
    requires RootList(g, roots) && PathTables(g, roots, tables) && index == CollectAll(nodes, roots, tables)
    ensures RightRootCauses(g, nodes, index)
  {
    forall i, other | 0 <= i < |nodes| && RootList(g, other) ensures CausePaths(g, other, nodes[i], index[i].paths) {
      IncreasingUnique(other, roots);
      CollectedPaths(g, roots, tables, nodes[i]);
    }
  }

  lemma RootsAre(g: Graph, degree: map<Node, nat>, roots: seq<Node>)
    requires Counts(g, g.Keys, degree, []) && roots == SortedNodes(set u | u in degree && degree[u] == 0)
    ensures RootList(g, roots) && forall r :: r in roots ==> r in g
  {
  }

  // ----- The analysis -----

  ghost predicate RightFanOut(g: Graph, nodes: seq<Node>, index: seq<FanOut>) {
    && |index| == |nodes|
    && forall i :: 0 <= i < |nodes| ==> index[i].node == nodes[i] && index[i].count == |Downstream(g, nodes[i])|
  }

  method FanOutIndex(nodes: seq<Node>, g: Graph) returns (index: seq<FanOut>)
    requires WellFormed(g) && Elements(nodes) == g.Keys
    ensures RightFanOut(g, nodes, index)
  {
    index := [];
    for k := 0 to |nodes|
      invariant |index| == k
      invariant forall i :: 0 <= i < k ==> index[i].node == nodes[i] && index[i].count == |Downstream(g, nodes[i])|
    {
      assert nodes[k] in Elements(nodes);
      var found := ReachableFrom(nodes[k], g);
      index := index + [FanOut(nodes[k], |found|)];
    }
  }

  /** The facts derived from a node list and the edges among those nodes. */
  ghost predicate IsProjection(nodes: seq<Node>, edges: seq<TypedEdge>, p: Projection) {
    var g := AdjacencyOf(Elements(nodes), edges);
    && p.evaluable == nodes
    && p.hard == BlockerIndexOf(nodes, edges, Hard)
    && p.soft == BlockerIndexOf(nodes, edges, Soft)
    && RightFanOut(g, nodes, p.fanOut)
    && RightRootCauses(g, nodes, p.rootCauses)
  }

  lemma ProjectionUnique(nodes: seq<Node>, edges: seq<TypedEdge>, p: Projection, q: Projection)
    requires IsProjection(nodes, edges, p) && IsProjection(nodes, edges, q)
    ensures p == q
  {
    var g := AdjacencyOf(Elements(nodes), edges);
    var roots := SortedNodes(set u | u in g && Preds(g, g.Keys, u) == {});
    assert RootList(g, roots);
    assert p.fanOut == q.fanOut;
    forall i | 0 <= i < |nodes| ensures p.rootCauses[i] == q.rootCauses[i] {
      CausePathsUnique(g, roots, nodes[i], p.rootCauses[i].paths, q.rootCauses[i].paths);
    }
    assert p.rootCauses == q.rootCauses;
  }

  /** All nodes under analysis: those given and the endpoints of blocks edges. */
  function AllNodes(nodes: seq<Node>, edges: seq<TypedEdge>): set<Node> {
    Elements(nodes) + Endpoints(OfType(edges, Blocks))
  }

  function BlocksGraph(nodes: seq<Node>, edges: seq<TypedEdge>): Graph {
    AdjacencyOf(AllNodes(nodes, edges), OfType(edges, Blocks))
  }

  ghost function CyclicNodes(nodes: seq<Node>, edges: seq<TypedEdge>): set<Node> {
    set n | n in AllNodes(nodes, edges) && OnCycle(BlocksGraph(nodes, edges), n)
  }

  ghost function KeptNodes(nodes: seq<Node>, edges: seq<TypedEdge>): seq<Node> {
    SortedNodes(AllNodes(nodes, edges) - CyclicNodes(nodes, edges))
  }

  ghost function KeptEdges(nodes: seq<Node>, edges: seq<TypedEdge>): seq<TypedEdge> {
    Avoiding(OfType(edges, Blocks), CyclicNodes(nodes, edges))
  }

  ghost function KeptGraph(nodes: seq<Node>, edges: seq<TypedEdge>): Graph {
    AdjacencyOf(Elements(KeptNodes(nodes, edges)), KeptEdges(nodes, edges))
  }

  function CyclicOnly(cs: seq<DependencyComponent>): seq<DependencyComponent> {
    if cs == [] then [] else (if cs[0].cyclic then [cs[0]] else []) + CyclicOnly(cs[1..])
  }

  lemma {:induction false} CyclicOnlyMembers(cs: seq<DependencyComponent>)
    ensures forall c :: c in CyclicOnly(cs) <==> c in cs && c.cyclic
  {
    if cs != [] {
      CyclicOnlyMembers(cs[1..]);
      assert cs == [cs[0]] + cs[1..];
    }
  }

  function AttentionOn(invalid: seq<DependencyComponent>): seq<Attention> {
    seq(|invalid|, i requires 0 <= i < |invalid| => Attention(invalid[i].members, invalid[i].cyclePath))
  }

  /** Components of the whole graph, and the projection of what lies on no cycle. */
  ghost predicate IsAnalysis(nodes: seq<Node>, edges: seq<TypedEdge>, a: Analysis) {
    && IsComponentList(BlocksGraph(nodes, edges), a.components)
    && a.invalid == CyclicOnly(a.components)
    && a.attention == AttentionOn(a.invalid)
    && IsProjection(KeptNodes(nodes, edges), KeptEdges(nodes, edges), a.projection)
  }

  lemma EdgesInside(edges: seq<TypedEdge>, all: set<Node>, excluded: set<Node>)
    requires Endpoints(edges) <= all
    ensures Endpoints(Avoiding(edges, excluded)) <= all - excluded
    ensures AdjacencyOf(all - excluded, Avoiding(edges, excluded)).Keys == all - excluded
  {
    AvoidingMembers(edges, excluded);
    var kept := Avoiding(edges, excluded);
    forall n | n in Endpoints(kept) ensures n in all - excluded {
      var e :| e in kept && (n == e.source || n == e.target);
      assert e in edges && n in Endpoints(edges);
    }
  }

  /** The members of the cyclic components are exactly the nodes on cycles. */
  lemma InvalidMembers(nodes: seq<Node>, edges: seq<TypedEdge>, cs: seq<DependencyComponent>)
    requires IsComponentList(BlocksGraph(nodes, edges), cs)
    ensures (set c, n | c in CyclicOnly(cs) && n in c.members :: n) == CyclicNodes(nodes, edges)
  {
    var g := BlocksGraph(nodes, edges);
    CyclicOnlyMembers(cs);
    forall n ensures n in CyclicNodes(nodes, edges) <==> exists c :: c in CyclicOnly(cs) && n in c.members {
      if c :| c in CyclicOnly(cs) && n in c.members {
        assert RightComponent(g, c) && n in g;
      }
      if n in CyclicNodes(nodes, edges) {
        var c :| c in cs && n in c.members;
        assert RightComponent(g, c);
      }
    }
  }

  lemma AdjacencyWellFormed(nodes: set<Node>, edges: seq<TypedEdge>)
    ensures WellFormed(AdjacencyOf(nodes, edges))
  {
    AdjacencyMeaning(nodes, edges);
  }

  method AllWorkItems(nodes: seq<Node>) returns (ok: bool)
    ensures ok <==> forall n :: n in nodes ==> IsWorkItem(n)
  {
    for i := 0 to |nodes|
      invariant forall k :: 0 <= k < i ==> IsWorkItem(nodes[k])
    {
      if !IsWorkItem(nodes[i]) {
        assert nodes[i] in nodes;
        return false;
      }
    }
    ok := true;
  }

  method AnalyzeDependencyGraph(nodes: seq<Node>, edges: seq<TypedEdge>) returns (r: AnalysisResult)
    ensures r.Analyzed? <==> forall n :: n in AllNodes(nodes, edges) ==> IsWorkItem(n)
    ensures r.Analyzed? ==> IsAnalysis(nodes, edges, r.analysis)
  {
    var blocks := OfType(edges, Blocks);
    var fromEdges := NodesFromEdges(blocks);
    var all := SortedNodes(Elements(nodes) + Elements(fromEdges));
    ElementsOfSorted(AllNodes(nodes, edges));
    assert forall n :: n in all <==> n in AllNodes(nodes, edges);
    var workItems := AllWorkItems(all);
    if !workItems {
      return NotWorkItems;
    }
    var a := AnalyzeGraph(nodes, edges, all, blocks);
    r := Analyzed(a);
  }

  /** Components first; then the rest without the members of the cyclic ones. */
  method AnalyzeGraph(nodes: seq<Node>, edges: seq<TypedEdge>, all: seq<Node>, blocks: seq<TypedEdge>) returns (a: Analysis)
    requires blocks == OfType(edges, Blocks) && Increasing(all) && Elements(all) == AllNodes(nodes, edges)
    ensures IsAnalysis(nodes, edges, a)
  {
    var g := Adjacency(all, blocks);
    AdjacencyWellFormed(AllNodes(nodes, edges), blocks);
    var components := StronglyConnectedComponents(all, g);
    var invalid := CyclicOnly(components);
    var invalidNodes := set c, n | c in invalid && n in c.members :: n;
    var projection := Project(AllNodes(nodes, edges), blocks, invalidNodes);
    a := Analysis(components, invalid, projection, AttentionOn(invalid));
    InvalidMembers(nodes, edges, components);
  }

  lemma ElementsOfSorted(s: set<Node>)
    ensures Elements(SortedNodes(s)) == s
  {
  }

  /** Drop the invalid nodes with their edges and derive the facts of the rest. */
  method Project(all: set<Node>, blocks: seq<TypedEdge>, invalidNodes: set<Node>) returns (p: Projection)
    requires Endpoints(blocks) <= all
    ensures IsProjection(SortedNodes(all - invalidNodes), Avoiding(blocks, invalidNodes), p)
  {
    var evaluable := SortedNodes(all - invalidNodes);
    var valid := Avoiding(blocks, invalidNodes);
    ElementsOfSorted(all - invalidNodes);
    EdgesInside(blocks, all, invalidNodes);
    AdjacencyMeaning(all - invalidNodes, valid);
    var g := Adjacency(evaluable, valid);
    var hard := BlockerIndex(evaluable, valid, Hard);
    var soft := BlockerIndex(evaluable, valid, Soft);
    var fanOut := FanOutIndex(evaluable, g);
    var rootCauses := RootCauseIndex(evaluable, g);
    p := Projection(evaluable, hard, soft, fanOut, rootCauses);
  }

  // ----- What the analysis guarantees -----

  /** A node is kept exactly when it lies on no directed blocks cycle. */
  lemma QuarantinedExactlyOnCycles(nodes: seq<Node>, edges: seq<TypedEdge>, a: Analysis, n: Node)
    requires IsAnalysis(nodes, edges, a)
    ensures n in a.projection.evaluable <==> n in AllNodes(nodes, edges) && !OnCycle(BlocksGraph(nodes, edges), n)
    ensures (exists c :: c in a.invalid && n in c.members) <==>
            n in AllNodes(nodes, edges) && OnCycle(BlocksGraph(nodes, edges), n)
  {
    InvalidMembers(nodes, edges, a.components);
    var quarantined := set c, m | c in a.invalid && m in c.members :: m;
    assert n in quarantined <==> n in CyclicNodes(nodes, edges);
  }

  lemma KeptGraphShape(nodes: seq<Node>, edges: seq<TypedEdge>)
    ensures var g := KeptGraph(nodes, edges);
            && WellFormed(g)
            && g.Keys == Elements(KeptNodes(nodes, edges)) == AllNodes(nodes, edges) - CyclicNodes(nodes, edges)
    ensures forall u, v :: Edge(KeptGraph(nodes, edges), u, v) <==>
                             Edge(BlocksGraph(nodes, edges), u, v) &&
                             u !in CyclicNodes(nodes, edges) && v !in CyclicNodes(nodes, edges)
  {
    var blocks, cyclic := OfType(edges, Blocks), CyclicNodes(nodes, edges);
    var all := AllNodes(nodes, edges);
    ElementsOfSorted(all - cyclic);
    EdgesInside(blocks, all, cyclic);
    AdjacencyMeaning(all, blocks);
    AdjacencyMeaning(all - cyclic, Avoiding(blocks, cyclic));
    AvoidingMembers(blocks, cyclic);
    var g := KeptGraph(nodes, edges);
    var whole := BlocksGraph(nodes, edges);
    forall u, v
      ensures Edge(g, u, v) <==> Edge(whole, u, v) && u !in cyclic && v !in cyclic
    {
      if Edge(g, u, v) {
        var e :| e in Avoiding(blocks, cyclic) && e.source == u && e.target == v;
        assert e in blocks;
      }
      if Edge(whole, u, v) && u !in cyclic && v !in cyclic {
        var e :| e in blocks && e.source == u && e.target == v;
        assert e in Avoiding(blocks, cyclic);
      }
    }
  }

  /** An attention record lists one class of the partition and the least simple cycle inside it through its least member. */
  ghost predicate NamesCycle(g: Graph, t: Attention) {
    IsScc(g, t.members) && LeastCycle(g, Elements(t.members), t.members[0], t.cyclePath)
  }

  /** A cyclic component has its attention record, and each record comes from one. */
  lemma AttentionRecords(invalid: seq<DependencyComponent>)
    ensures forall c :: c in invalid ==> Attention(c.members, c.cyclePath) in AttentionOn(invalid)
    ensures forall t :: t in AttentionOn(invalid) ==> exists c :: c in invalid && t == Attention(c.members, c.cyclePath)
  {
    forall c | c in invalid ensures Attention(c.members, c.cyclePath) in AttentionOn(invalid) {
      var i :| 0 <= i < |invalid| && invalid[i] == c;
      assert AttentionOn(invalid)[i] == Attention(c.members, c.cyclePath);
    }
  }

  /** Every record names a real cycle, and a node is in some record exactly when it lies on a cycle. */
  lemma AttentionNamesCycles(nodes: seq<Node>, edges: seq<TypedEdge>, a: Analysis, n: Node)
    requires IsAnalysis(nodes, edges, a)
    ensures forall t :: t in a.attention ==> NamesCycle(BlocksGraph(nodes, edges), t)
    ensures (exists t :: t in a.attention && n in t.members) <==>
            n in AllNodes(nodes, edges) && OnCycle(BlocksGraph(nodes, edges), n)
  {
    AttentionRecords(a.invalid);
    RecordsNameCycles(BlocksGraph(nodes, edges), a);
    QuarantinedExactlyOnCycles(nodes, edges, a, n);
    if c :| c in a.invalid && n in c.members {
      assert n in Attention(c.members, c.cyclePath).members;
    }
  }

  lemma RecordsNameCycles(g: Graph, a: Analysis)
    requires IsComponentList(g, a.components) && a.invalid == CyclicOnly(a.components) && a.attention == AttentionOn(a.invalid)
    ensures forall t :: t in a.attention ==> NamesCycle(g, t)
  {
    AttentionRecords(a.invalid);
    CyclicOnlyMembers(a.components);
    forall t | t in a.attention ensures NamesCycle(g, t) {
      var c :| c in a.invalid && t == Attention(c.members, c.cyclePath);
      assert RightComponent(g, c);
    }
  }

  /** What remains after the quarantine has no cycle. */
  lemma KeptGraphAcyclic(nodes: seq<Node>, edges: seq<TypedEdge>)
    ensures Acyclic(KeptGraph(nodes, edges))
  {
    KeptGraphShape(nodes, edges);
    var g, whole := KeptGraph(nodes, edges), BlocksGraph(nodes, edges);
    forall u | u in g ensures !OnCycle(g, u) {
      if p :| Walk(g, p, u, u) && |p| > 1 {
        assert Walk(whole, p, u, u);
      }
    }
  }

  /** The kept part, taken as a new input, is kept whole. */
  lemma KeptPartIsFixed(nodes: seq<Node>, edges: seq<TypedEdge>)
    ensures var kept, valid := KeptNodes(nodes, edges), KeptEdges(nodes, edges);
            && BlocksGraph(kept, valid) == KeptGraph(nodes, edges)
            && KeptNodes(kept, valid) == kept && KeptEdges(kept, valid) == valid
  {
    var kept, valid := KeptNodes(nodes, edges), KeptEdges(nodes, edges);
    AvoidingMembers(OfType(edges, Blocks), CyclicNodes(nodes, edges));
    OfTypeMembers(edges, Blocks);
    OfTypeAgain(valid, Blocks);
    KeptGraphShape(nodes, edges);
    EdgesInside(OfType(edges, Blocks), AllNodes(nodes, edges), CyclicNodes(nodes, edges));
    assert AllNodes(kept, valid) == Elements(kept);
    KeptGraphAcyclic(nodes, edges);
    assert CyclicNodes(kept, valid) == {};
    AvoidingNothing(valid, {});
    assert Elements(kept) - {} == Elements(kept);
    IncreasingUnique(KeptNodes(kept, valid), kept);
  }

  // ----- What the analysis says about the given edges -----

  /** Some given blocks edge of the subtype leads from `u` to `v`. */
  ghost predicate BlockedBy(edges: seq<TypedEdge>, u: Node, v: Node, subtype: BlockSubtype) {
    exists e :: e in edges && e.edgeType == Blocks && e.source == u && e.target == v && e.subtype == Subtype(subtype)
  }

  /** The whole graph: the given nodes and the ends of blocks edges, an edge exactly where some blocks edge leads. */
  lemma WholeGraph(nodes: seq<Node>, edges: seq<TypedEdge>)
    ensures forall n :: n in BlocksGraph(nodes, edges) <==>
                          n in nodes || exists e :: e in edges && e.edgeType == Blocks && (n == e.source || n == e.target)
    ensures forall u, v :: Edge(BlocksGraph(nodes, edges), u, v) <==>
                             exists e :: e in edges && e.edgeType == Blocks && e.source == u && e.target == v
  {
    var blocks := OfType(edges, Blocks);
    OfTypeMembers(edges, Blocks);
    AdjacencyMeaning(AllNodes(nodes, edges), blocks);
    forall n
      ensures n in BlocksGraph(nodes, edges) <==> n in nodes || exists e :: e in edges && e.edgeType == Blocks && (n == e.source || n == e.target)
    {
      if n in Endpoints(blocks) {
        var e :| e in blocks && (n == e.source || n == e.target);
        assert e in edges;
      }
      if e :| e in edges && e.edgeType == Blocks && (n == e.source || n == e.target) {
        assert e in blocks;
      }
    }
    forall u, v
      ensures Edge(BlocksGraph(nodes, edges), u, v) <==> exists e :: e in edges && e.edgeType == Blocks && e.source == u && e.target == v
    {
      if e :| e in edges && e.edgeType == Blocks && e.source == u && e.target == v {
        assert e in blocks;
      }
      if e :| e in blocks && e.source == u && e.target == v {
        assert e in edges;
      }
    }
  }

  /** One blocker list of the projection: the kept sources of given edges of its own subtype, in order. */
  ghost predicate ListsBlockers(edges: seq<TypedEdge>, evaluable: seq<Node>, list: seq<Blockers>, subtype: BlockSubtype) {
    && |list| == |evaluable|
    && forall i :: 0 <= i < |list| ==>
                     && list[i].target == evaluable[i] && Increasing(list[i].sources)
                     && forall s :: s in list[i].sources <==> s in evaluable && BlockedBy(edges, s, evaluable[i], subtype)
  }

  lemma SourcesAre(nodes: seq<Node>, edges: seq<TypedEdge>, subtype: BlockSubtype, n: Node, s: Node)
    requires n in KeptNodes(nodes, edges)
    ensures s in SourcesOf(KeptEdges(nodes, edges), subtype, n) <==> s in KeptNodes(nodes, edges) && BlockedBy(edges, s, n, subtype)
  {
    var blocks, cyclic := OfType(edges, Blocks), CyclicNodes(nodes, edges);
    OfTypeMembers(edges, Blocks);
    AvoidingMembers(blocks, cyclic);
    KeptGraphShape(nodes, edges);
    assert n in Elements(KeptNodes(nodes, edges)) && (s in KeptNodes(nodes, edges) <==> s in Elements(KeptNodes(nodes, edges)));
    if e :| e in KeptEdges(nodes, edges) && e.source == s && e.target == n && e.subtype == Subtype(subtype) {
      assert e in blocks && e in edges && s !in cyclic;
      assert s in Endpoints(blocks);
    }
    if s in KeptNodes(nodes, edges) && BlockedBy(edges, s, n, subtype) {
      var e :| e in edges && e.edgeType == Blocks && e.source == s && e.target == n && e.subtype == Subtype(subtype);
      assert e in blocks && e in KeptEdges(nodes, edges);
    }
  }

  lemma IndexEntry(kept: seq<Node>, valid: seq<TypedEdge>, subtype: BlockSubtype, i: nat)
    requires i < |kept|
    ensures var list := BlockerIndexOf(kept, valid, subtype);
            && |list| == |kept| && list[i].target == kept[i] && Increasing(list[i].sources)
            && forall s :: s in list[i].sources <==> s in SourcesOf(valid, subtype, kept[i])
  {
  }

  lemma IndexLists(nodes: seq<Node>, edges: seq<TypedEdge>, subtype: BlockSubtype, kept: seq<Node>, list: seq<Blockers>)
    requires kept == KeptNodes(nodes, edges) && list == BlockerIndexOf(kept, KeptEdges(nodes, edges), subtype)
    ensures ListsBlockers(edges, kept, list, subtype)
  {
    forall i | 0 <= i < |kept|
      ensures list[i].target == kept[i] && Increasing(list[i].sources)
      ensures forall s :: s in list[i].sources <==> s in kept && BlockedBy(edges, s, kept[i], subtype)
    {
      IndexEntry(kept, KeptEdges(nodes, edges), subtype, i);
      var n: Node := kept[i];
      assert n in kept;
      forall s ensures s in SourcesOf(KeptEdges(nodes, edges), subtype, n) <==> s in kept && BlockedBy(edges, s, n, subtype) {
        SourcesAre(nodes, edges, subtype, n, s);
      }
    }
  }

  /** Hard lists hold the kept hard blockers and soft lists the kept soft blockers, for every kept node in order. */
  lemma BlockersAreRight(nodes: seq<Node>, edges: seq<TypedEdge>, a: Analysis)
    requires IsAnalysis(nodes, edges, a)
    ensures ListsBlockers(edges, a.projection.evaluable, a.projection.hard, Hard)
    ensures ListsBlockers(edges, a.projection.evaluable, a.projection.soft, Soft)
  {
    IndexLists(nodes, edges, Hard, a.projection.evaluable, a.projection.hard);
    IndexLists(nodes, edges, Soft, a.projection.evaluable, a.projection.soft);
  }

  /** Fan-out counts the kept nodes behind each kept node. */
  lemma FanOutIsRight(nodes: seq<Node>, edges: seq<TypedEdge>, a: Analysis, i: nat)
    requires IsAnalysis(nodes, edges, a) && i < |a.projection.evaluable|
    ensures |a.projection.fanOut| == |a.projection.evaluable|
    ensures var n := a.projection.evaluable[i];
            && a.projection.fanOut[i].node == n
            && a.projection.fanOut[i].count == |set t | t in Elements(a.projection.evaluable) && ReachesPlus(KeptGraph(nodes, edges), n, t)|
  {
    KeptGraphShape(nodes, edges);
    var n := a.projection.evaluable[i];
    assert Downstream(KeptGraph(nodes, edges), n) ==
           set t | t in Elements(a.projection.evaluable) && ReachesPlus(KeptGraph(nodes, edges), n, t);
  }

  /** Nobody blocks `r`. */
  ghost predicate Unblocked(g: Graph, r: Node) {
    r in g && forall u :: !Edge(g, u, r)
  }

  lemma RootIsUnblocked(g: Graph, r: Node)
    ensures IsRoot(g, r) <==> Unblocked(g, r)
  {
    if r in g && !Unblocked(g, r) {
      var u :| Edge(g, u, r);
      assert u in Preds(g, g.Keys, r);
    }
    if r in g && !IsRoot(g, r) {
      var u := Pick(Preds(g, g.Keys, r));
      assert Edge(g, u, r);
    }
  }

  lemma CausePathsAre(g: Graph, roots: seq<Node>, target: Node, paths: seq<seq<Node>>, p: seq<Node>)
    requires RootList(g, roots) && CausePaths(g, roots, target, paths)
    ensures p in paths <==> exists r :: Unblocked(g, r) && LeastPath(g, r, target, p)
  {
    CausePathsMeaning(g, roots, target, paths);
    if p in paths {
      var r: Node := p[0];
      RootIsUnblocked(g, r);
      assert Unblocked(g, r) && LeastPath(g, r, target, p);
    }
    if r :| Unblocked(g, r) && LeastPath(g, r, target, p) {
      RootIsUnblocked(g, r);
      assert r in roots && Reaches(g, r, target);
      var q :| q in paths && LeastPath(g, r, target, q);
      LeastPathUnique(g, r, target, p, q);
    }
  }

  /** The paths of one target: the least one from every unblocked node that reaches it, by first node. */
  ghost predicate AreRootCauses(g: Graph, target: Node, paths: seq<seq<Node>>) {
    && (forall p :: p in paths <==> exists r :: Unblocked(g, r) && LeastPath(g, r, target, p))
    && (forall j :: 0 <= j < |paths| ==> paths[j] != [])
    && (forall j, k :: 0 <= j < k < |paths| ==> paths[j][0] < paths[k][0])
  }

  lemma CausesOf(g: Graph, roots: seq<Node>, target: Node, paths: seq<seq<Node>>)
    requires RootList(g, roots) && CausePaths(g, roots, target, paths)
    ensures AreRootCauses(g, target, paths)
  {
    CausePathsOrdered(g, roots, target, paths);
    forall p ensures p in paths <==> exists r :: Unblocked(g, r) && LeastPath(g, r, target, p) {
      CausePathsAre(g, roots, target, paths, p);
    }
  }

  lemma ListRoots(g: Graph) returns (roots: seq<Node>)
    ensures RootList(g, roots)
  {
    roots := SortedNodes(set u | u in g && Preds(g, g.Keys, u) == {});
  }

  /** Every kept node has exactly its root-cause paths. */
  lemma RootCausesAreRight(nodes: seq<Node>, edges: seq<TypedEdge>, a: Analysis, i: nat)
    requires IsAnalysis(nodes, edges, a) && i < |a.projection.evaluable|
    ensures |a.projection.rootCauses| == |a.projection.evaluable|
    ensures a.projection.rootCauses[i].target == a.projection.evaluable[i]
    ensures AreRootCauses(KeptGraph(nodes, edges), a.projection.evaluable[i], a.projection.rootCauses[i].paths)
  {
    var roots := ListRoots(KeptGraph(nodes, edges));
    CausesOf(KeptGraph(nodes, edges), roots, a.projection.evaluable[i], a.projection.rootCauses[i].paths);
  }

  lemma {:induction false} CausePathsOrdered(g: Graph, roots: seq<Node>, target: Node, paths: seq<seq<Node>>)
    requires Increasing(roots) && CausePaths(g, roots, target, paths)
    ensures forall j :: 0 <= j < |paths| ==> paths[j] != [] && paths[j][0] in roots
    ensures forall j, k :: 0 <= j < k < |paths| ==> paths[j][0] < paths[k][0]
  {
    if roots != [] {
      assert roots == [roots[0]] + roots[1..];
      if Reaches(g, roots[0], target) {
        CausePathsOrdered(g, roots[1..], target, paths[1..]);
        assert paths == [paths[0]] + paths[1..];
      } else {
        CausePathsOrdered(g, roots[1..], target, paths);
      }
    }
  }

  // ----- The analysis is determined -----

  ghost predicate SameEdges(edges: seq<TypedEdge>, others: seq<TypedEdge>) {
    forall e :: e in edges <==> e in others
  }

  lemma SameAdjacency(nodes: set<Node>, edges: seq<TypedEdge>, others: seq<TypedEdge>)
    requires SameEdges(edges, others)
    ensures AdjacencyOf(nodes, edges) == AdjacencyOf(nodes, others)
  {
    SameEndpoints(edges, others);
    forall n ensures TargetsOf(edges, n) == TargetsOf(others, n) { SameTargets(edges, others, n); }
  }

  lemma SameEndpoints(edges: seq<TypedEdge>, others: seq<TypedEdge>)
    requires SameEdges(edges, others)
    ensures Endpoints(edges) == Endpoints(others)
  {
  }

  lemma SameTargets(edges: seq<TypedEdge>, others: seq<TypedEdge>, n: Node)
    requires SameEdges(edges, others)
    ensures TargetsOf(edges, n) == TargetsOf(others, n)
  {
  }

  lemma SameBlockers(nodes: seq<Node>, edges: seq<TypedEdge>, others: seq<TypedEdge>, subtype: BlockSubtype)
    requires SameEdges(edges, others)
    ensures BlockerIndexOf(nodes, edges, subtype) == BlockerIndexOf(nodes, others, subtype)
  {
    forall n ensures SourcesOf(edges, subtype, n) == SourcesOf(others, subtype, n) {
    }
  }

  /** A projection does not depend on how often or in which order the edges are listed. */
  lemma SameProjection(nodes: seq<Node>, edges: seq<TypedEdge>, others: seq<TypedEdge>, p: Projection)
    requires SameEdges(edges, others) && IsProjection(nodes, edges, p)
    ensures IsProjection(nodes, others, p)
  {
    SameAdjacency(Elements(nodes), edges, others);
    SameBlockers(nodes, edges, others, Hard);
    SameBlockers(nodes, edges, others, Soft);
  }

  lemma SameKept(nodes: seq<Node>, edges: seq<TypedEdge>, nodes': seq<Node>, edges': seq<TypedEdge>)
    requires AllNodes(nodes, edges) == AllNodes(nodes', edges') && SameEdges(OfType(edges, Blocks), OfType(edges', Blocks))
    ensures BlocksGraph(nodes, edges) == BlocksGraph(nodes', edges')
    ensures KeptNodes(nodes, edges) == KeptNodes(nodes', edges') && SameEdges(KeptEdges(nodes, edges), KeptEdges(nodes', edges'))
  {
    SameAdjacency(AllNodes(nodes, edges), OfType(edges, Blocks), OfType(edges', Blocks));
    assert CyclicNodes(nodes, edges) == CyclicNodes(nodes', edges');
    AvoidingMembers(OfType(edges, Blocks), CyclicNodes(nodes, edges));
    AvoidingMembers(OfType(edges', Blocks), CyclicNodes(nodes, edges));
  }

  /** The nodes and the blocks edges determine the whole analysis, evidence included: no order, repetition or other edge matters. */
  lemma AnalysisUnique(nodes: seq<Node>, edges: seq<TypedEdge>, nodes': seq<Node>, edges': seq<TypedEdge>, a: Analysis, b: Analysis)
    requires AllNodes(nodes, edges) == AllNodes(nodes', edges') && SameEdges(OfType(edges, Blocks), OfType(edges', Blocks))
    requires IsAnalysis(nodes, edges, a) && IsAnalysis(nodes', edges', b)
    ensures a == b
  {
    SameKept(nodes, edges, nodes', edges');
    ComponentsUnique(BlocksGraph(nodes, edges), a.components, b.components);
    SameProjection(KeptNodes(nodes, edges), KeptEdges(nodes, edges), KeptEdges(nodes', edges'), a.projection);
    ProjectionUnique(KeptNodes(nodes', edges'), KeptEdges(nodes', edges'), a.projection, b.projection);
  }

  /** Analysing the kept part again quarantines nothing and derives the same facts. */
  lemma AnalysisIdempotent(nodes: seq<Node>, edges: seq<TypedEdge>, a: Analysis, b: Analysis)
    requires IsAnalysis(nodes, edges, a)
    requires IsAnalysis(a.projection.evaluable, KeptEdges(nodes, edges), b)
    ensures b.invalid == [] && b.attention == [] && b.projection == a.projection
  {
    KeptPartIsFixed(nodes, edges);
    ProjectionUnique(KeptNodes(nodes, edges), KeptEdges(nodes, edges), a.projection, b.projection);
    KeptGraphAcyclic(nodes, edges);
    NoCyclicComponent(KeptGraph(nodes, edges), b.components);
  }

  lemma {:induction false} NoCyclicComponent(g: Graph, cs: seq<DependencyComponent>)
    requires Acyclic(g) && forall c :: c in cs ==> RightComponent(g, c)
    ensures CyclicOnly(cs) == []
  {
    if cs != [] {
      assert cs[0] in cs && forall c :: c in cs[1..] ==> c in cs;
      var u: Node := cs[0].members[0];
      assert u in cs[0].members && u in g;
      NoCyclicComponent(g, cs[1..]);
    }
  }

  /** Reported fan-out falls strictly along every kept edge; every kept node has root causes, and nobody blocks those. */
  lemma ProjectionFacts(nodes: seq<Node>, edges: seq<TypedEdge>, a: Analysis)
    requires IsAnalysis(nodes, edges, a)
    ensures var g, p := KeptGraph(nodes, edges), a.projection;
            && |p.fanOut| == |p.rootCauses| == |p.evaluable|
            && (forall i, j :: 0 <= i < |p.evaluable| && 0 <= j < |p.evaluable| && Edge(g, p.evaluable[i], p.evaluable[j]) ==>
                                 p.fanOut[i].count > p.fanOut[j].count)
            && (forall i :: 0 <= i < |p.evaluable| ==> p.rootCauses[i].paths != [])
            && (forall i, path :: 0 <= i < |p.evaluable| && path in p.rootCauses[i].paths ==>
                                    path != [] && Walk(g, path, path[0], p.evaluable[i]) && IsRoot(g, path[0]))
  {
    var g, p := KeptGraph(nodes, edges), a.projection;
    KeptGraphShape(nodes, edges);
    KeptGraphAcyclic(nodes, edges);
    forall i, j | 0 <= i < |p.evaluable| && 0 <= j < |p.evaluable| && Edge(g, p.evaluable[i], p.evaluable[j])
      ensures p.fanOut[i].count > p.fanOut[j].count
    {
      FanOutDecreases(g, p.evaluable[i], p.evaluable[j]);
    }
    forall i | 0 <= i < |p.evaluable|
      ensures p.rootCauses[i].paths != []
      ensures forall path :: path in p.rootCauses[i].paths ==>
                               path != [] && Walk(g, path, path[0], p.evaluable[i]) && IsRoot(g, path[0])
    {
      RootCauseExists(g, p.evaluable, p.rootCauses, i);
    }
  }
}
