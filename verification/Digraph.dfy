/** Directed graphs over resource nodes, walks in them, and reachability. */
module Digraph {
  import opened Ordering

  /** A node stands for its rank under `_node_key`, so nodes compare as their keys do. */
  type Node = int

  type Graph = map<Node, seq<Node>>

  /** What `_adjacency` promises: every target is itself a key and every target list is sorted. */
  ghost predicate WellFormed(g: Graph) {
    && (forall u, v :: Edge(g, u, v) ==> v in g)
    && (forall u :: u in g ==> Increasing(g[u]))
  }

  predicate Edge(g: Graph, u: Node, v: Node) {
    u in g && v in g[u]
  }

  ghost predicate IsPath(g: Graph, p: seq<Node>) {
    && |p| > 0
    && p[0] in g
    && forall i :: 0 <= i < |p| - 1 ==> Edge(g, p[i], p[i + 1])
  }

  ghost predicate Walk(g: Graph, p: seq<Node>, u: Node, v: Node) {
    IsPath(g, p) && p[0] == u && p[|p| - 1] == v
  }

  ghost predicate Reaches(g: Graph, u: Node, v: Node) {
    exists p :: Walk(g, p, u, v)
  }

  /** Reachability by a path with at least one edge. */
  ghost predicate ReachesPlus(g: Graph, u: Node, v: Node) {
    exists p :: Walk(g, p, u, v) && |p| > 1
  }

  ghost predicate OnCycle(g: Graph, u: Node) {
    ReachesPlus(g, u, u)
  }

  ghost predicate Acyclic(g: Graph) {
    forall u :: u in g ==> !OnCycle(g, u)
  }

  ghost predicate Mutual(g: Graph, u: Node, v: Node) {
    Reaches(g, u, v) && Reaches(g, v, u)
  }

  /** The sources of the edges into `v`, among the nodes of `s`. */
  ghost function Preds(g: Graph, s: set<Node>, v: Node): set<Node> {
    set u | u in s && Edge(g, u, v)
  }

  ghost predicate ClosedUnder(g: Graph, s: set<Node>) {
    forall u, v :: u in s && Edge(g, u, v) ==> v in s
  }

  // ----- Walks -----

  lemma WalkNodes(g: Graph, p: seq<Node>)
    requires IsPath(g, p)
    requires forall u, v :: Edge(g, u, v) ==> v in g
    ensures forall i :: 0 <= i < |p| ==> p[i] in g
  {
    forall i | 0 < i < |p| ensures p[i] in g {
      assert Edge(g, p[i - 1], p[i - 1 + 1]);
    }
  }

  lemma JoinWalks(g: Graph, p: seq<Node>, q: seq<Node>, u: Node, v: Node, w: Node)
    requires Walk(g, p, u, v) && Walk(g, q, v, w)
    ensures Walk(g, p + q[1..], u, w)
  {
    var r := p + q[1..];
    forall i | 0 <= i < |r| - 1 ensures Edge(g, r[i], r[i + 1]) {
      if i >= |p| - 1 {
        var k := i - (|p| - 1);
        assert r[i] == q[k] && r[i + 1] == q[k + 1];
      }
    }
  }

  lemma ExtendWalk(g: Graph, p: seq<Node>, u: Node, v: Node, w: Node)
    requires Walk(g, p, u, v) && Edge(g, v, w)
    ensures Walk(g, p + [w], u, w)
  {
    var r := p + [w];
    forall i | 0 <= i < |r| - 1 ensures Edge(g, r[i], r[i + 1]) {
      assert i == |p| - 1 ==> r[i] == v && r[i + 1] == w;
    }
  }

  /** A path can be continued backwards by any predecessor of its first node. */
  lemma PrependPath(g: Graph, p: seq<Node>, u: Node)
    requires IsPath(g, p) && Edge(g, u, p[0])
    ensures IsPath(g, [u] + p)
  {
    var r := [u] + p;
    forall i | 0 <= i < |r| - 1 ensures Edge(g, r[i], r[i + 1]) {
      assert i > 0 ==> r[i] == p[i - 1] && r[i + 1] == p[i - 1 + 1];
    }
  }

  lemma SubWalk(g: Graph, p: seq<Node>, i: nat, j: nat)
    requires IsPath(g, p) && i <= j < |p|
    requires p[i] in g
    ensures Walk(g, p[i..j + 1], p[i], p[j])
  {
    var r := p[i..j + 1];
    forall k | 0 <= k < |r| - 1 ensures Edge(g, r[k], r[k + 1]) {
      assert r[k] == p[i + k] && r[k + 1] == p[i + k + 1];
    }
  }

  lemma ReachesSelf(g: Graph, u: Node)
    requires u in g
    ensures Reaches(g, u, u)
  {
    assert Walk(g, [u], u, u);
  }

  lemma ReachesEdge(g: Graph, u: Node, v: Node)
    requires Edge(g, u, v)
    ensures Reaches(g, u, v) && ReachesPlus(g, u, v)
  {
    assert Walk(g, [u, v], u, v);
  }

  lemma ReachesTransitive(g: Graph, u: Node, v: Node, w: Node)
    requires Reaches(g, u, v) && Reaches(g, v, w)
    ensures Reaches(g, u, w)
    ensures ReachesPlus(g, u, v) || ReachesPlus(g, v, w) ==> ReachesPlus(g, u, w)
  {
    var p :| Walk(g, p, u, v) && (ReachesPlus(g, u, v) ==> |p| > 1);
    var q :| Walk(g, q, v, w) && (ReachesPlus(g, v, w) ==> |q| > 1);
    JoinWalks(g, p, q, u, v, w);
  }

  lemma PlusReaches(g: Graph, u: Node, v: Node)
    requires ReachesPlus(g, u, v)
    ensures Reaches(g, u, v)
  {
  }

  /** A non-empty path starts with an edge. */
  lemma FirstStep(g: Graph, u: Node, v: Node) returns (w: Node)
    requires ReachesPlus(g, u, v)
    requires forall u, v :: Edge(g, u, v) ==> v in g
    ensures Edge(g, u, w) && Reaches(g, w, v)
  {
    var p :| Walk(g, p, u, v) && |p| > 1;
    w := p[1];
    assert Edge(g, p[0], p[0 + 1]);
    SubWalk(g, p, 1, |p| - 1);
  }

  lemma EdgeThenReaches(g: Graph, u: Node, v: Node, w: Node)
    requires Edge(g, u, v) && Reaches(g, v, w)
    ensures ReachesPlus(g, u, w)
  {
    ReachesEdge(g, u, v);
    ReachesTransitive(g, u, v, w);
  }

  /** Nothing outside a closed set is reachable from inside it. */
  lemma ClosedContainsReachable(g: Graph, s: set<Node>, u: Node, v: Node)
    requires ClosedUnder(g, s) && u in s && Reaches(g, u, v)
    ensures v in s
  {
    var p :| Walk(g, p, u, v);
    WalkStays(g, s, p);
  }

  lemma {:induction false} WalkStays(g: Graph, s: set<Node>, p: seq<Node>)
    requires ClosedUnder(g, s) && IsPath(g, p) && p[0] in s
    ensures forall i :: 0 <= i < |p| ==> p[i] in s
    decreases |p|
  {
    if |p| > 1 {
      var k := |p| - 1;
      WalkStays(g, s, p[..k]);
      assert p[..k][k - 1] in s;
      assert Edge(g, p[k - 1], p[k - 1 + 1]);
    }
  }

  // ----- Cycles -----

  lemma RepeatMakesCycle(g: Graph, p: seq<Node>, i: nat, j: nat)
    requires IsPath(g, p) && i < j < |p| && p[i] == p[j]
    requires p[i] in g
    ensures OnCycle(g, p[i])
  {
    SubWalk(g, p, i, j);
  }

  /** In an acyclic graph every path visits distinct nodes, so its length is bounded. */
  lemma AcyclicPathBound(g: Graph, p: seq<Node>)
    requires Acyclic(g) && IsPath(g, p)
    requires forall u, v :: Edge(g, u, v) ==> v in g
    ensures Distinct(p)
    ensures |p| <= |g.Keys|
  {
    WalkNodes(g, p);
    forall i, j | 0 <= i < j < |p| ensures p[i] != p[j] {
      if p[i] == p[j] { RepeatMakesCycle(g, p, i, j); }
    }
    DistinctBound(p, g.Keys);
  }

  /** Walking backwards inside `s` in an acyclic graph ends at a node with no predecessor in `s`. */
  lemma {:induction false} SourceBehind(g: Graph, s: set<Node>, p: seq<Node>) returns (q: seq<Node>)
    requires Acyclic(g) && s <= g.Keys
    requires forall u, v :: Edge(g, u, v) ==> v in g
    requires IsPath(g, p) && p[0] in s
    ensures IsPath(g, q) && q[0] in s && q[|q| - 1] == p[|p| - 1]
    ensures Preds(g, s, q[0]) == {}
    decreases |g.Keys| - |p|
  {
    AcyclicPathBound(g, p);
    if Preds(g, s, p[0]) == {} {
      q := p;
    } else {
      var u := Pick(Preds(g, s, p[0]));
      PrependPath(g, p, u);
      AcyclicPathBound(g, [u] + p);
      q := SourceBehind(g, s, [u] + p);
    }
  }

  /** A set in which every node has a predecessor inside the set contains, behind each node, a cycle. */
  lemma {:induction false} CycleBehind(g: Graph, s: set<Node>, p: seq<Node>) returns (c: Node)
    requires s <= g.Keys
    requires forall v :: v in s ==> Preds(g, s, v) != {}
    requires IsPath(g, p) && Distinct(p) && (forall i :: 0 <= i < |p| ==> p[i] in s)
    ensures c in s && OnCycle(g, c) && Reaches(g, c, p[|p| - 1])
    decreases |s| - |p|
  {
    var u := Pick(Preds(g, s, p[0]));
    var r := [u] + p;
    PrependPath(g, p, u);
    if k :| 0 <= k < |p| && p[k] == u {
      c := u;
      RepeatMakesCycle(g, r, 0, k + 1);
      SubWalk(g, r, 0, |r| - 1);
    } else {
      DistinctBound(r, s);
      c := CycleBehind(g, s, r);
    }
  }

  // ----- Simple paths -----

  /** Cutting out the loops of a walk leaves a simple path between the same ends, over the same nodes. */
  lemma {:induction false} SimplePath(g: Graph, p: seq<Node>, u: Node, v: Node) returns (q: seq<Node>)
    requires Walk(g, p, u, v)
    requires forall u, v :: Edge(g, u, v) ==> v in g
    ensures Walk(g, q, u, v) && Distinct(q)
    ensures forall x :: x in q ==> x in p
    decreases |p|
  {
    if i, j :| 0 <= i < j < |p| && p[i] == p[j] {
      WalkNodes(g, p);
      SubWalk(g, p, 0, i);
      SubWalk(g, p, j, |p| - 1);
      JoinWalks(g, p[0..i + 1], p[j..|p| - 1 + 1], u, p[i], v);
      var r := p[0..i + 1] + p[j..|p| - 1 + 1][1..];
      assert forall x :: x in r ==> x in p;
      q := SimplePath(g, r, u, v);
    } else {
      q := p;
    }
  }
}
