/** Queue-driven shortest paths with the (length, lexicographic) tie-break. */
module ShortestPaths {
  import opened Ordering
  import opened Digraph

  /** `p` is the least of all walks from `root` to `target` under `_path_key`. */
  ghost predicate LeastPath(g: Graph, root: Node, target: Node, p: seq<Node>) {
    Walk(g, p, root, target) && forall q :: Walk(g, q, root, target) ==> PathAtMost(p, q)
  }

  /** `adjacency.get(node, ())`: a node without an entry has no targets. */
  function WithNode(g: Graph, n: Node): Graph {
    if n in g then g else g[n := []]
  }

  ghost predicate LeastPaths(g: Graph, root: Node, paths: map<Node, seq<Node>>) {
    && (forall t :: t in paths <==> Reaches(g, root, t))
    && (forall t :: t in paths ==> LeastPath(g, root, t, paths[t]))
  }

  lemma LeastPathUnique(g: Graph, root: Node, t: Node, p: seq<Node>, q: seq<Node>)
    requires LeastPath(g, root, t, p) && LeastPath(g, root, t, q)
    ensures p == q
  {
    if p != q { PathAsymmetric(p, q); }
  }

  // ----- The search state -----

  /** Both nodes have paths, the first one's being less. */
  ghost predicate Before(paths: map<Node, seq<Node>>, x: Node, y: Node) {
    x in paths && y in paths && PathLess(paths[x], paths[y])
  }

  /** `t` was reached over an edge from a node that has left the queue. */
  ghost predicate HasParent(g: Graph, paths: map<Node, seq<Node>>, pending: seq<Node>, t: Node, p: Node) {
    t in paths && p in paths && p !in pending && paths[t] == paths[p] + [t]
  }

  ghost predicate Parented(g: Graph, paths: map<Node, seq<Node>>, pending: seq<Node>, t: Node) {
    exists p :: HasParent(g, paths, pending, t, p)
  }

  /** The edge from `x` to `t` cannot improve the path of `t`. */
  ghost predicate Relaxed(paths: map<Node, seq<Node>>, x: Node, t: Node) {
    x in paths && t in paths && PathAtMost(paths[t], paths[x] + [t])
  }

  /** `front` lists the nodes still to be expanded in path order; all others are expanded and come before. */
  ghost predicate Front(g: Graph, root: Node, paths: map<Node, seq<Node>>, front: seq<Node>) {
    && (forall t :: t in paths ==> Walk(g, paths[t], root, t))
    && (forall i :: 0 <= i < |front| ==> front[i] in paths)
    && (forall i, j :: 0 <= i < j < |front| ==> Before(paths, front[i], front[j]))
    && (forall x, i :: x in paths && x !in front && 0 <= i < |front| ==> Before(paths, x, front[i]))
    && (forall x, t :: x in paths && x !in front && Edge(g, x, t) ==> Relaxed(paths, x, t))
  }

  ghost predicate Queued(g: Graph, root: Node, paths: map<Node, seq<Node>>, front: seq<Node>, pending: seq<Node>) {
      && WellFormed(g) && root in paths && paths[root] == [root]
      && Front(g, root, paths, front)
      && forall t {:trigger Parented(g, paths, pending, t)} :: t in paths && t != root ==> Parented(g, paths, pending, t)
  }

  /** While `node` is expanded: its first `j` targets are relaxed, and it is least of all that is left. */
  ghost predicate Expanding(g: Graph, root: Node, paths: map<Node, seq<Node>>, node: Node, pending: seq<Node>, j: nat) {
    && node in g && j <= |g[node]|
    && Queued(g, root, paths, [node] + pending, pending)
    && (forall k :: 0 <= k < j ==> Relaxed(paths, node, g[node][k]))
    && (forall k :: j <= k < |g[node]| ==> !HasParent(g, paths, pending, g[node][k], node))
  }

  // ----- Steps -----

  /** A target that already has a path is never improved: its parent was expanded before `node`. */
  lemma NeverImproved(g: Graph, root: Node, paths: map<Node, seq<Node>>, node: Node, pending: seq<Node>, j: nat, t: Node)
    requires Expanding(g, root, paths, node, pending, j) && t in paths
    ensures node in paths && PathAtMost(paths[t], paths[node] + [t])
  {
    assert ([node] + pending)[0] == node;
    if t != root {
      assert Parented(g, paths, pending, t);
      var p :| HasParent(g, paths, pending, t, p);
      if p != node {
        assert p !in [node] + pending;
        assert Before(paths, p, ([node] + pending)[0]);
        PathExtend(paths[p], paths[node], t, t);
      }
    }
  }

  lemma SnocInjective(p: seq<Node>, q: seq<Node>, t: Node)
    requires p + [t] == q + [t]
    ensures p == q
  {
    assert p == (p + [t])[..|p|] && q == (q + [t])[..|q|];
  }

  lemma StartNode(g: Graph, root: Node, paths: map<Node, seq<Node>>, pending: seq<Node>)
    requires WellFormed(g) && pending != [] && Queued(g, root, paths, pending, pending)
    ensures Expanding(g, root, paths, pending[0], pending[1..], 0)
  {
    var node, rest := pending[0], pending[1..];
    assert pending == [node] + rest;
    WalkNodes(g, paths[node]);
    forall t | t in paths && t != root ensures Parented(g, paths, rest, t) {
      assert Parented(g, paths, pending, t);
      var p :| HasParent(g, paths, pending, t, p);
      assert HasParent(g, paths, rest, t, p);
    }
    forall k | 0 <= k < |g[node]| ensures !HasParent(g, paths, rest, g[node][k], node) {
      var t := g[node][k];
      if HasParent(g, paths, rest, t, node) {
        assert t != root ==> Parented(g, paths, pending, t);
        if t != root {
          var p :| HasParent(g, paths, pending, t, p);
          SnocInjective(paths[p], paths[node], t);
        }
      }
    }
  }

  /** The candidate for an unreached target of `node` comes after everything queued. */
  lemma CandidateIsLast(g: Graph, root: Node, paths: map<Node, seq<Node>>, node: Node, pending: seq<Node>, j: nat, y: Node)
    requires Expanding(g, root, paths, node, pending, j) && j < |g[node]| && g[node][j] !in paths
    requires y in pending
    ensures node in paths && y in paths && PathLess(paths[y], paths[node] + [g[node][j]])
  {
    var front := [node] + pending;
    var t := g[node][j];
    assert front[0] == node && y in front;
    var i :| 0 <= i < |front| && front[i] == y;
    if y != root {
      assert Parented(g, paths, pending, y);
      var p :| HasParent(g, paths, pending, y, p);
      if p == node {
        var path := paths[y];
        assert Edge(g, path[|path| - 2], path[|path| - 2 + 1]);
        assert path[|path| - 2] == node;
        var k :| 0 <= k < |g[node]| && g[node][k] == y;
        assert HasParent(g, paths, pending, g[node][k], node);
        assert k < j;
        PathExtendSame(paths[node], y, t);
      } else {
        assert p !in front;
        assert Before(paths, p, front[0]);
        PathExtend(paths[p], paths[node], y, t);
      }
    }
  }

  /** An unreached target joins the queue with the path through `node`. */
  lemma Discover(g: Graph, root: Node, paths: map<Node, seq<Node>>, node: Node, pending: seq<Node>, j: nat)
    requires Expanding(g, root, paths, node, pending, j) && j < |g[node]| && g[node][j] !in paths
    ensures node in paths
    ensures Expanding(g, root, paths[g[node][j] := paths[node] + [g[node][j]]], node, pending + [g[node][j]], j + 1)
  {
    DiscoverFront(g, root, paths, node, pending, j);
    DiscoverParents(g, root, paths, node, pending, j);
    DiscoverRelaxed(g, root, paths, node, pending, j);
  }

  lemma NotQueuedTwice(g: Graph, root: Node, paths: map<Node, seq<Node>>, node: Node, pending: seq<Node>)
    requires Front(g, root, paths, [node] + pending)
    ensures node in paths && node !in pending
  {
    var front := [node] + pending;
    assert front[0] == node;
    forall i | 0 <= i < |pending| ensures pending[i] != node {
      assert Before(paths, front[0], front[i + 1]);
      PathAsymmetric(paths[front[0]], paths[front[i + 1]]);
    }
  }

  lemma DiscoverParents(g: Graph, root: Node, paths: map<Node, seq<Node>>, node: Node, pending: seq<Node>, j: nat)
    requires Expanding(g, root, paths, node, pending, j) && j < |g[node]| && g[node][j] !in paths
    ensures node in paths
    ensures var paths' := paths[g[node][j] := paths[node] + [g[node][j]]];
            forall s {:trigger Parented(g, paths', pending + [g[node][j]], s)} ::
              s in paths' && s != root ==> Parented(g, paths', pending + [g[node][j]], s)
  {
    NotQueuedTwice(g, root, paths, node, pending);
    var t := g[node][j];
    var paths', pending' := paths[t := paths[node] + [t]], pending + [t];
    forall s | s in paths' && s != root ensures Parented(g, paths', pending', s) {
      if s == t {
        assert HasParent(g, paths', pending', t, node);
      } else {
        assert Parented(g, paths, pending, s);
        var p :| HasParent(g, paths, pending, s, p);
        assert HasParent(g, paths', pending', s, p);
      }
    }
  }

  lemma DiscoverRelaxed(g: Graph, root: Node, paths: map<Node, seq<Node>>, node: Node, pending: seq<Node>, j: nat)
    requires Expanding(g, root, paths, node, pending, j) && j < |g[node]| && g[node][j] !in paths
    ensures node in paths
    ensures var paths' := paths[g[node][j] := paths[node] + [g[node][j]]];
            && (forall k :: 0 <= k <= j ==> Relaxed(paths', node, g[node][k]))
            && (forall k :: j < k < |g[node]| ==> !HasParent(g, paths', pending + [g[node][j]], g[node][k], node))
  {
    NotQueuedTwice(g, root, paths, node, pending);
    var t := g[node][j];
    var paths', pending' := paths[t := paths[node] + [t]], pending + [t];
    forall k | 0 <= k < j ensures Relaxed(paths', node, g[node][k]) { assert Relaxed(paths, node, g[node][k]); }
    forall k | j < k < |g[node]| ensures !HasParent(g, paths', pending', g[node][k], node) {
      assert g[node][k] != t;
      assert !HasParent(g, paths, pending, g[node][k], node);
    }
  }

  lemma DiscoverFront(g: Graph, root: Node, paths: map<Node, seq<Node>>, node: Node, pending: seq<Node>, j: nat)
    requires Expanding(g, root, paths, node, pending, j) && j < |g[node]| && g[node][j] !in paths
    ensures node in paths
    ensures Front(g, root, paths[g[node][j] := paths[node] + [g[node][j]]], [node] + (pending + [g[node][j]]))
  {
    var t := g[node][j];
    var front := [node] + pending;
    assert front[0] == node;
    var paths' := paths[t := paths[node] + [t]];
    var front' := [node] + (pending + [t]);
    assert front' == front + [t];
    assert Edge(g, node, t);
    ExtendWalk(g, paths[node], root, node, t);
    forall y | y in front ensures Before(paths', y, t) {
      if y in pending { CandidateIsLast(g, root, paths, node, pending, j, y); }
    }
    forall a, b | 0 <= a < b < |front'| ensures Before(paths', front'[a], front'[b]) {
      if b < |front| {
        assert Before(paths, front[a], front[b]);
      } else {
        assert front[a] in front;
      }
    }
    forall x, i | x in paths' && x !in front' && 0 <= i < |front'| ensures Before(paths', x, front'[i]) {
      assert x != t && x !in front;
      if i < |front| {
        assert Before(paths, x, front[i]);
      } else {
        assert Before(paths, x, front[0]);
      }
    }
    forall x, v | x in paths' && x !in front' && Edge(g, x, v) ensures Relaxed(paths', x, v) {
      assert x != t && x !in front;
      assert Relaxed(paths, x, v);
    }
  }

  /** A target that already has a path leaves everything as it is. */
  lemma Skip(g: Graph, root: Node, paths: map<Node, seq<Node>>, node: Node, pending: seq<Node>, j: nat)
    requires Expanding(g, root, paths, node, pending, j) && j < |g[node]| && g[node][j] in paths
    ensures node in paths && !PathLess(paths[node] + [g[node][j]], paths[g[node][j]])
    ensures Expanding(g, root, paths, node, pending, j + 1)
  {
    var t := g[node][j];
    NeverImproved(g, root, paths, node, pending, j, t);
    if PathLess(paths[node] + [t], paths[t]) { PathAsymmetric(paths[node] + [t], paths[t]); }
    assert Relaxed(paths, node, t);
  }

  lemma Settle(g: Graph, root: Node, paths: map<Node, seq<Node>>, node: Node, pending: seq<Node>)
    requires node in g && Expanding(g, root, paths, node, pending, |g[node]|)
    ensures Queued(g, root, paths, pending, pending)
  {
    var front := [node] + pending;
    assert forall i :: 0 <= i < |pending| ==> pending[i] == front[i + 1];
    forall x, i | x in paths && x !in pending && 0 <= i < |pending| ensures Before(paths, x, pending[i]) {
      if x == node { assert Before(paths, front[0], front[i + 1]); } else { assert Before(paths, x, front[i + 1]); }
    }
    forall x, t | x in paths && x !in pending && Edge(g, x, t) ensures Relaxed(paths, x, t) {
      if x == node {
        var k :| 0 <= k < |g[node]| && g[node][k] == t;
        assert Relaxed(paths, node, g[node][k]);
      }
    }
  }

  // ----- The result -----

  lemma {:induction false} Dominates(g: Graph, root: Node, paths: map<Node, seq<Node>>, q: seq<Node>)
    requires Queued(g, root, paths, [], [])
    requires IsPath(g, q) && q[0] == root
    ensures q[|q| - 1] in paths && PathAtMost(paths[q[|q| - 1]], q)
    decreases |q|
  {
    var k := |q| - 1;
    if k == 0 {
      assert q == [root];
    } else {
      var u, t := q[k - 1], q[k];
      Dominates(g, root, paths, q[..k]);
      assert q[..k][|q[..k]| - 1] == u;
      assert Edge(g, q[k - 1], q[k - 1 + 1]);
      assert Relaxed(paths, u, t);
      assert q == q[..k] + [t];
      if paths[u] != q[..k] { PathExtend(paths[u], q[..k], t, t); }
      PathTransitive(paths[t], paths[u] + [t], q);
    }
  }

  lemma DrainedIsLeast(g: Graph, root: Node, paths: map<Node, seq<Node>>)
    requires Queued(g, root, paths, [], [])
    ensures LeastPaths(g, root, paths)
  {
    forall t ensures t in paths <==> Reaches(g, root, t) {
      if t in paths { assert Walk(g, paths[t], root, t); }
      if Reaches(g, root, t) {
        var q :| Walk(g, q, root, t);
        Dominates(g, root, paths, q);
      }
    }
    forall t, q | t in paths && Walk(g, q, root, t) ensures PathAtMost(paths[t], q) {
      Dominates(g, root, paths, q);
    }
  }

  lemma WithNodeWellFormed(g: Graph, n: Node)
    requires WellFormed(g)
    ensures WellFormed(WithNode(g, n))
  {
    var h := WithNode(g, n);
    forall u, v | Edge(h, u, v) ensures v in h { assert Edge(g, u, v); }
  }

  /** The first path found for a node is never improved, so every node is queued at most once. */
  method ShortestPaths(root: Node, g: Graph) returns (paths: map<Node, seq<Node>>)
    requires WellFormed(g)
    ensures LeastPaths(WithNode(g, root), root, paths)
  {
    ghost var h := WithNode(g, root);
    WithNodeWellFormed(g, root);
    paths := map[root := [root]];
    var pending := [root];
    assert Queued(h, root, paths, pending, pending);
    while pending != []
      invariant Queued(h, root, paths, pending, pending)
      decreases |h.Keys - paths.Keys|, |pending|
    {
      var node := pending[0];
      StartNode(h, root, paths, pending);
      pending := pending[1..];
      paths, pending := ExpandNode(root, g, node, paths, pending);
    }
    DrainedIsLeast(h, root, paths);
  }

  /** Either a node was reached for the first time, or the queue is as before. */
  ghost predicate Progress(g: Graph, before: map<Node, seq<Node>>, queue: seq<Node>,
                           paths: map<Node, seq<Node>>, pending: seq<Node>) {
    |g.Keys - paths.Keys| < |g.Keys - before.Keys| || (paths == before && pending == queue)
  }

  lemma DiscoverProgress(g: Graph, before: map<Node, seq<Node>>, queue: seq<Node>, paths: map<Node, seq<Node>>, pending: seq<Node>,
                         target: Node, path: seq<Node>)
    requires Progress(g, before, queue, paths, pending) && target in g && target !in paths
    ensures Progress(g, before, queue, paths[target := path], pending + [target])
  {
    FewerLeft(g.Keys, paths.Keys, paths[target := path].Keys, target);
  }

  /** The inner loop: append a candidate path for every target that improves. */
  method ExpandNode(root: Node, g: Graph, node: Node, before: map<Node, seq<Node>>, queue: seq<Node>)
    returns (paths: map<Node, seq<Node>>, pending: seq<Node>)
    requires WellFormed(g) && Expanding(WithNode(g, root), root, before, node, queue, 0)
    ensures Queued(WithNode(g, root), root, paths, pending, pending)
    ensures Progress(WithNode(g, root), before, queue, paths, pending)
  {
    ghost var h := WithNode(g, root);
    paths, pending := before, queue;
    var targets := if node in g then g[node] else [];
    for j := 0 to |targets|
      invariant targets == h[node] && Expanding(h, root, paths, node, pending, j)
      invariant Progress(h, before, queue, paths, pending)
    {
      var target := targets[j];
      assert Edge(h, node, target);
      if target in paths {
        Skip(h, root, paths, node, pending, j);
      } else {
        Discover(h, root, paths, node, pending, j);
        DiscoverProgress(h, before, queue, paths, pending, target, paths[node] + [target]);
      }
      var candidate := paths[node] + [target];
      if target !in paths || PathLess(candidate, paths[target]) {
        paths := paths[target := candidate];
        pending := pending + [target];
      }
    }
    Settle(h, root, paths, node, pending);
  }
}
