/** The region of derived state that can change after graph mutations. */
module AffectedRegion {
  import opened Ordering
  import opened Digraph
  import opened Edges
  import opened ShortestPaths

  datatype AffectedPath = AffectedPath(root: Node, target: Node, path: seq<Node>)

  datatype Region = Region(roots: seq<Node>, affected: seq<Node>, paths: seq<AffectedPath>)

  /** Edges along which derived state propagates, away from quarantined nodes. */
  function SemanticEdges(edges: seq<TypedEdge>, quarantined: set<Node>): seq<TypedEdge> {
    if edges == [] then []
    else
      var e := edges[0];
      (if !e.edgeType.RelatedTo? && e.source !in quarantined && e.target !in quarantined then [e] else []) +
      SemanticEdges(edges[1..], quarantined)
  }

  function RegionGraph(roots: set<Node>, edges: seq<TypedEdge>, quarantined: set<Node>): Graph {
    var semantic := SemanticEdges(edges, quarantined);
    AdjacencyOf(roots - quarantined + Endpoints(semantic), semantic)
  }

  /** A mutation of `u` can change derived state of `v`: a contains, blocks or requires-gate edge between unquarantined nodes. */
  ghost predicate Propagates(edges: seq<TypedEdge>, quarantined: set<Node>, u: Node, v: Node) {
    exists e :: e in edges && (e.edgeType.Contains? || e.edgeType.Blocks? || e.edgeType.RequiresGate?) &&
                e.source == u && e.target == v && u !in quarantined && v !in quarantined
  }

  /** A route of propagation from its first node to its last. */
  ghost predicate Route(edges: seq<TypedEdge>, quarantined: set<Node>, p: seq<Node>, root: Node, target: Node) {
    && p != [] && p[0] == root && p[|p| - 1] == target
    && forall i :: 0 <= i < |p| - 1 ==> Propagates(edges, quarantined, p[i], p[i + 1])
  }

  lemma {:induction false} SemanticMembers(edges: seq<TypedEdge>, quarantined: set<Node>)
    ensures forall e :: e in SemanticEdges(edges, quarantined) <==>
                          e in edges && (e.edgeType.Contains? || e.edgeType.Blocks? || e.edgeType.RequiresGate?) &&
                          e.source !in quarantined && e.target !in quarantined
  {
    if edges != [] {
      SemanticMembers(edges[1..], quarantined);
      assert edges == [edges[0]] + edges[1..];
    }
  }

  /** The graph traversed has an edge exactly where a change propagates, and exactly the roots and the ends of such edges. */
  lemma RegionGraphMeaning(roots: set<Node>, edges: seq<TypedEdge>, quarantined: set<Node>)
    ensures forall u, v :: Edge(RegionGraph(roots, edges, quarantined), u, v) <==> Propagates(edges, quarantined, u, v)
    ensures forall n :: n in RegionGraph(roots, edges, quarantined) <==>
                          (n in roots && n !in quarantined) ||
                          exists m :: Propagates(edges, quarantined, n, m) || Propagates(edges, quarantined, m, n)
  {
    var semantic := SemanticEdges(edges, quarantined);
    var g := RegionGraph(roots, edges, quarantined);
    SemanticMembers(edges, quarantined);
    AdjacencyMeaning(roots - quarantined + Endpoints(semantic), semantic);
    forall u, v ensures Edge(g, u, v) <==> Propagates(edges, quarantined, u, v) {
      if Propagates(edges, quarantined, u, v) {
        var e :| e in edges && (e.edgeType.Contains? || e.edgeType.Blocks? || e.edgeType.RequiresGate?) &&
                 e.source == u && e.target == v && u !in quarantined && v !in quarantined;
        assert e in semantic;
      }
    }
    forall n | n in Endpoints(semantic) ensures exists m :: Propagates(edges, quarantined, n, m) || Propagates(edges, quarantined, m, n) {
      var e :| e in semantic && (n == e.source || n == e.target);
      assert Propagates(edges, quarantined, e.source, e.target);
    }
    forall n, m | Propagates(edges, quarantined, n, m) ensures n in g && m in g {
      assert Edge(g, n, m);
    }
  }

  /** A walk of the graph from an unquarantined root is a route of propagation, and conversely. */
  lemma WalksAreRoutes(roots: set<Node>, edges: seq<TypedEdge>, quarantined: set<Node>, p: seq<Node>, root: Node, target: Node)
    requires root in roots && root !in quarantined
    ensures Walk(RegionGraph(roots, edges, quarantined), p, root, target) <==> Route(edges, quarantined, p, root, target)
  {
    RegionGraphMeaning(roots, edges, quarantined);
  }

  /** What the region promises, in terms of the given edges alone. */
  ghost predicate RightRegion(roots: seq<Node>, edges: seq<TypedEdge>, quarantined: set<Node>, r: Region) {
    && Increasing(r.roots) && (forall n :: n in r.roots <==> n in roots && n !in quarantined)
    && Increasing(r.affected)
    && (forall t :: t in r.affected <==> exists root, p :: root in r.roots && Route(edges, quarantined, p, root, t))
    && (forall a :: a in r.paths ==>
          && a.root in r.roots && Route(edges, quarantined, a.path, a.root, a.target)
          && forall q :: Route(edges, quarantined, q, a.root, a.target) ==> PathAtMost(a.path, q))
    && (forall root, t, p :: root in r.roots && Route(edges, quarantined, p, root, t) ==> exists a :: a in r.paths && a.root == root && a.target == t)
    && (forall i, j :: 0 <= i < j < |r.paths| ==>
          r.paths[i].root < r.paths[j].root || (r.paths[i].root == r.paths[j].root && r.paths[i].target < r.paths[j].target))
  }

  lemma CollectedIsRight(roots: seq<Node>, edges: seq<TypedEdge>, quarantined: set<Node>, r: Region)
    requires Increasing(r.roots) && (forall n :: n in r.roots <==> n in roots && n !in quarantined) && Increasing(r.affected)
    requires Collected(RegionGraph(Elements(roots), edges, quarantined), r.roots, Elements(r.affected), r.paths)
    ensures RightRegion(roots, edges, quarantined, r)
  {
    var g := RegionGraph(Elements(roots), edges, quarantined);
    forall root, t, p | root in r.roots ensures Walk(g, p, root, t) <==> Route(edges, quarantined, p, root, t) {
      WalksAreRoutes(Elements(roots), edges, quarantined, p, root, t);
    }
    forall t ensures t in r.affected <==> exists root, p :: root in r.roots && Route(edges, quarantined, p, root, t) {
      assert t in r.affected <==> t in Elements(r.affected);
      if t in r.affected {
        var root :| root in r.roots && Reaches(g, root, t);
        var p :| Walk(g, p, root, t);
      }
      if root, p :| root in r.roots && Route(edges, quarantined, p, root, t) {
        assert Walk(g, p, root, t);
      }
    }
    forall root, t, p | root in r.roots && Route(edges, quarantined, p, root, t)
      ensures exists a :: a in r.paths && a.root == root && a.target == t
    {
      assert Walk(g, p, root, t);
      assert Listed(g, r.roots, r.paths) && Reaches(g, root, t);
      var a :| a in r.paths && a.root == root && a.target == t;
    }
    forall a, q | a in r.paths && Route(edges, quarantined, q, a.root, a.target) ensures PathAtMost(a.path, q) {
      assert RightPath(g, a) && Walk(g, q, a.root, a.target);
    }
    forall a | a in r.paths ensures Route(edges, quarantined, a.path, a.root, a.target) {
      assert RightPath(g, a);
    }
  }

  /** `_affected_path_key` on entries with distinct (root, target) pairs. */
  predicate PathBefore(a: AffectedPath, b: AffectedPath) {
    a.root < b.root || (a.root == b.root && a.target < b.target)
  }

  ghost predicate RightPath(g: Graph, a: AffectedPath) {
    LeastPath(g, a.root, a.target, a.path)
  }

  /** The entries of one root, by target. */
  function PathsFrom(root: Node, targets: seq<Node>, paths: map<Node, seq<Node>>): seq<AffectedPath>
    requires forall i :: 0 <= i < |targets| ==> targets[i] in paths
  {
    seq(|targets|, i requires 0 <= i < |targets| => AffectedPath(root, targets[i], paths[targets[i]]))
  }

  /** The affected nodes are those reachable from a root. */
  ghost predicate Covers(g: Graph, roots: seq<Node>, affected: set<Node>) {
    forall t :: t in affected <==> exists r :: r in roots && Reaches(g, r, t)
  }

  /** Every listed path is least; every reachable pair is listed. */
  ghost predicate Listed(g: Graph, roots: seq<Node>, paths: seq<AffectedPath>) {
    && (forall a :: a in paths ==> a.root in roots && RightPath(g, a))
    && (forall r, t :: r in roots && Reaches(g, r, t) ==> exists a :: a in paths && a.root == r && a.target == t)
  }

  ghost predicate KeyOrdered(paths: seq<AffectedPath>) {
    forall i, j :: 0 <= i < j < |paths| ==> PathBefore(paths[i], paths[j])
  }

  ghost predicate Collected(g: Graph, roots: seq<Node>, affected: set<Node>, paths: seq<AffectedPath>) {
    Covers(g, roots, affected) && Listed(g, roots, paths) && KeyOrdered(paths)
  }

  /** The targets of one root in order, with a stored path for each. */
  ghost predicate TargetList(table: map<Node, seq<Node>>, targets: seq<Node>) {
    && Increasing(targets) && (forall t :: t in table <==> t in targets)
    && forall i :: 0 <= i < |targets| ==> targets[i] in table
  }

  lemma CoversMore(g: Graph, roots: seq<Node>, affected: set<Node>, root: Node, table: map<Node, seq<Node>>)
    requires Covers(g, roots, affected) && LeastPaths(g, root, table)
    ensures Covers(g, roots + [root], affected + table.Keys)
  {
    forall t ensures t in affected + table.Keys <==> exists r :: r in roots + [root] && Reaches(g, r, t) {
      if t in table { assert root in roots + [root]; }
      if t in affected {
        var r :| r in roots && Reaches(g, r, t);
        assert r in roots + [root];
      }
    }
  }

  lemma ListedMore(g: Graph, roots: seq<Node>, paths: seq<AffectedPath>, root: Node, table: map<Node, seq<Node>>, targets: seq<Node>)
    requires Listed(g, roots, paths) && LeastPaths(g, root, table) && TargetList(table, targets)
    ensures Listed(g, roots + [root], paths + PathsFrom(root, targets, table))
  {
    var more := PathsFrom(root, targets, table);
    var all := paths + more;
    forall r, t | r in roots + [root] && Reaches(g, r, t) ensures exists a :: a in all && a.root == r && a.target == t {
      if r in roots {
        var a :| a in paths && a.root == r && a.target == t;
        assert a in all;
      } else {
        var i :| 0 <= i < |targets| && targets[i] == t;
        assert more[i] in all;
      }
    }
    forall a | a in all ensures a.root in roots + [root] && RightPath(g, a) {
      if a !in paths {
        var i :| 0 <= i < |more| && more[i] == a;
        var t: Node := targets[i];
        assert t in table && LeastPath(g, root, t, table[t]);
      }
    }
  }

  lemma OrderedMore(g: Graph, roots: seq<Node>, paths: seq<AffectedPath>, root: Node, table: map<Node, seq<Node>>, targets: seq<Node>)
    requires Listed(g, roots, paths) && KeyOrdered(paths) && TargetList(table, targets)
    requires forall r :: r in roots ==> r < root
    ensures KeyOrdered(paths + PathsFrom(root, targets, table))
  {
    var all := paths + PathsFrom(root, targets, table);
    forall i, j | 0 <= i < j < |all| ensures PathBefore(all[i], all[j]) {
      if i < |paths| { assert all[i] in paths; }
    }
  }

  /** Exactly what a change of an unquarantined root propagates to, with the least route for every pair. */
  method TraverseAffectedRegion(roots: seq<Node>, edges: seq<TypedEdge>, quarantined: seq<Node>) returns (r: Region)
    ensures RightRegion(roots, edges, Elements(quarantined), r)
    ensures Collected(RegionGraph(Elements(roots), edges, Elements(quarantined)), r.roots, Elements(r.affected), r.paths)
  {
    var excluded := Elements(quarantined);
    var resolved, g := ResolveRoots(roots, edges, excluded);
    var affected, paths := CollectRoots(resolved, g);
    SortedIsSame(affected);
    r := Region(resolved, SortedNodes(affected), paths);
    CollectedIsRight(roots, edges, excluded, r);
  }

  /** The unquarantined roots in order, and the graph to traverse. */
  method ResolveRoots(roots: seq<Node>, edges: seq<TypedEdge>, excluded: set<Node>) returns (resolved: seq<Node>, g: Graph)
    ensures Increasing(resolved) && forall n :: n in resolved <==> n in roots && n !in excluded
    ensures g == RegionGraph(Elements(roots), edges, excluded) && WellFormed(g)
    ensures forall i :: 0 <= i < |resolved| ==> resolved[i] in g
  {
    resolved := SortedNodes(Elements(roots) - excluded);
    var semantic := SemanticEdges(edges, excluded);
    var fromEdges := NodesFromEdges(semantic);
    var all := SortedNodes(Elements(resolved) + Elements(fromEdges));
    SortedIsSame(Elements(roots) - excluded);
    SortedIsSame(Elements(roots) - excluded + Endpoints(semantic));
    g := Adjacency(all, semantic);
    AdjacencyMeaning(Elements(all), semantic);
    RootsKnown(Elements(roots) - excluded, semantic, resolved);
  }

  lemma CollectRoot(g: Graph, roots: seq<Node>, affected: set<Node>, paths: seq<AffectedPath>, root: Node,
                    table: map<Node, seq<Node>>, targets: seq<Node>)
    requires Collected(g, roots, affected, paths) && forall r :: r in roots ==> r < root
    requires LeastPaths(g, root, table) && TargetList(table, targets)
    ensures Collected(g, roots + [root], affected + table.Keys, paths + PathsFrom(root, targets, table))
  {
    CoversMore(g, roots, affected, root, table);
    ListedMore(g, roots, paths, root, table, targets);
    OrderedMore(g, roots, paths, root, table, targets);
  }

  /** Root by root, as the code accumulates `affected` and `paths`. */
  method CollectRoots(roots: seq<Node>, g: Graph) returns (affected: set<Node>, paths: seq<AffectedPath>)
    requires WellFormed(g) && Increasing(roots) && forall i :: 0 <= i < |roots| ==> roots[i] in g
    ensures Collected(g, roots, affected, paths)
  {
    affected, paths := {}, [];
    ghost var seen: seq<Node> := [];
    for k := 0 to |roots|
      invariant seen == roots[..k] && Collected(g, seen, affected, paths)
    {
      var root := roots[k];
      var shortest := ShortestPaths.ShortestPaths(root, g);
      var targets := SortedNodes(shortest.Keys);
      Targets(shortest, targets);
      EarlierRoots(roots, k);
      CollectRoot(g, seen, affected, paths, root, shortest, targets);
      affected := affected + shortest.Keys;
      paths := paths + PathsFrom(root, targets, shortest);
      seen := seen + [root];
    }
    assert roots[..|roots|] == roots;
  }

  lemma EarlierRoots(roots: seq<Node>, k: nat)
    requires Increasing(roots) && k < |roots|
    ensures forall r :: r in roots[..k] ==> r < roots[k]
    ensures roots[..k + 1] == roots[..k] + [roots[k]]
  {
  }

  lemma Targets(table: map<Node, seq<Node>>, targets: seq<Node>)
    requires targets == SortedNodes(table.Keys)
    ensures TargetList(table, targets)
  {
    forall i | 0 <= i < |targets| ensures targets[i] in table {
      var t: Node := targets[i];
      assert t in targets;
    }
  }

  lemma SortedIsSame(s: set<Node>)
    ensures Elements(SortedNodes(s)) == s
  {
  }

  lemma RootsKnown(roots: set<Node>, semantic: seq<TypedEdge>, resolved: seq<Node>)
    requires resolved == SortedNodes(roots)
    ensures forall i :: 0 <= i < |resolved| ==> resolved[i] in AdjacencyOf(roots + Endpoints(semantic), semantic)
  {
    forall i | 0 <= i < |resolved| ensures resolved[i] in roots {
      var n: Node := resolved[i];
      assert n in resolved;
    }
  }
}
