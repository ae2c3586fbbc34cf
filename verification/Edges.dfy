/** Typed edges and the adjacency tables built from them. */
module Edges {
  import opened Ordering
  import opened Digraph

  datatype EdgeType = Contains | Blocks | RequiresGate | RelatedTo

  datatype BlockSubtype = Hard | Soft

  datatype OptionalSubtype = NoSubtype | Subtype(value: BlockSubtype)

  datatype TypedEdge = TypedEdge(edgeType: EdgeType, source: Node, target: Node, subtype: OptionalSubtype)

  /** The edges of one type, in their given order. */
  function OfType(edges: seq<TypedEdge>, t: EdgeType): seq<TypedEdge> {
    if edges == [] then []
    else (if edges[0].edgeType == t then [edges[0]] else []) + OfType(edges[1..], t)
  }

  lemma {:induction false} OfTypeMembers(edges: seq<TypedEdge>, t: EdgeType)
    ensures forall e :: e in OfType(edges, t) <==> e in edges && e.edgeType == t
  {
    if edges != [] {
      OfTypeMembers(edges[1..], t);
      assert edges == [edges[0]] + edges[1..];
    }
  }

  /** The edges with neither endpoint in `excluded`, in their given order. */
  function Avoiding(edges: seq<TypedEdge>, excluded: set<Node>): seq<TypedEdge> {
    if edges == [] then []
    else
      (if edges[0].source !in excluded && edges[0].target !in excluded then [edges[0]] else []) +
      Avoiding(edges[1..], excluded)
  }

  lemma {:induction false} AvoidingMembers(edges: seq<TypedEdge>, excluded: set<Node>)
    ensures forall e :: e in Avoiding(edges, excluded) <==>
                          e in edges && e.source !in excluded && e.target !in excluded
  {
    if edges != [] {
      AvoidingMembers(edges[1..], excluded);
      assert edges == [edges[0]] + edges[1..];
    }
  }

  lemma {:induction false} AvoidingNothing(edges: seq<TypedEdge>, excluded: set<Node>)
    requires forall e :: e in edges ==> e.source !in excluded && e.target !in excluded
    ensures Avoiding(edges, excluded) == edges
  {
    if edges != [] {
      assert edges[0] in edges;
      assert forall e :: e in edges[1..] ==> e in edges;
      AvoidingNothing(edges[1..], excluded);
      assert edges == [edges[0]] + edges[1..];
    }
  }

  lemma {:induction false} OfTypeAgain(edges: seq<TypedEdge>, t: EdgeType)
    requires forall e :: e in edges ==> e.edgeType == t
    ensures OfType(edges, t) == edges
  {
    if edges != [] {
      assert edges[0] in edges;
      assert forall e :: e in edges[1..] ==> e in edges;
      OfTypeAgain(edges[1..], t);
      assert edges == [edges[0]] + edges[1..];
    }
  }

  function Endpoints(edges: seq<TypedEdge>): set<Node> {
    (set e | e in edges :: e.source) + (set e | e in edges :: e.target)
  }

  function TargetsOf(edges: seq<TypedEdge>, n: Node): set<Node> {
    set e | e in edges && e.source == n :: e.target
  }

  /** The adjacency table of a node set and an edge list: every endpoint is a key, targets are sorted. */
  function AdjacencyOf(nodes: set<Node>, edges: seq<TypedEdge>): Graph {
    map n | n in nodes + Endpoints(edges) :: SortedNodes(TargetsOf(edges, n))
  }

  lemma AdjacencyMeaning(nodes: set<Node>, edges: seq<TypedEdge>)
    ensures WellFormed(AdjacencyOf(nodes, edges))
    ensures forall n :: n in AdjacencyOf(nodes, edges) <==> n in nodes || exists e :: e in edges && (n == e.source || n == e.target)
    ensures forall u, v :: Edge(AdjacencyOf(nodes, edges), u, v) <==>
                           exists e :: e in edges && e.source == u && e.target == v
  {
    var g := AdjacencyOf(nodes, edges);
    forall u, v
      ensures Edge(g, u, v) <==> exists e :: e in edges && e.source == u && e.target == v
      ensures Edge(g, u, v) ==> v in g
    {
      if e :| e in edges && e.source == u && e.target == v {
        assert u in Endpoints(edges) && v in Endpoints(edges);
        assert v in TargetsOf(edges, u);
      }
    }
  }

  method NodesFromEdges(edges: seq<TypedEdge>) returns (nodes: seq<Node>)
    ensures Increasing(nodes) && Elements(nodes) == Endpoints(edges)
    ensures forall n :: n in nodes <==> exists e :: e in edges && (n == e.source || n == e.target)
  {
    nodes := SortedNodes(Endpoints(edges));
  }

  /** The table after the edges of a prefix have been entered. */
  ghost predicate TargetTable(nodes: seq<Node>, edges: seq<TypedEdge>, targets: map<Node, set<Node>>) {
    && targets.Keys == Elements(nodes) + Endpoints(edges)
    && forall n :: n in targets ==> targets[n] == TargetsOf(edges, n)
  }

  /** Edge by edge, as `mutable.setdefault(source, set()).add(target)` fills the table. */
  method Adjacency(nodes: seq<Node>, edges: seq<TypedEdge>) returns (g: Graph)
    ensures g == AdjacencyOf(Elements(nodes), edges)
  {
    var targets: map<Node, set<Node>> := map n | n in Elements(nodes) :: {};
    for i := 0 to |edges|
      invariant TargetTable(nodes, edges[..i], targets)
    {
      EnterEdge(nodes, edges[..i], edges[i], targets);
      assert edges[..i + 1] == edges[..i] + [edges[i]];
      var e := edges[i];
      var known := if e.source in targets then targets[e.source] else {};
      targets := targets[e.source := known + {e.target}];
      if e.target !in targets { targets := targets[e.target := {}]; }
    }
    assert edges[..|edges|] == edges;
    g := map n | n in targets :: SortedNodes(targets[n]);
  }

  lemma EnterEdge(nodes: seq<Node>, edges: seq<TypedEdge>, e: TypedEdge, targets: map<Node, set<Node>>)
    requires TargetTable(nodes, edges, targets)
    ensures var known := if e.source in targets then targets[e.source] else {};
            var next := targets[e.source := known + {e.target}];
            TargetTable(nodes, edges + [e], if e.target in next then next else next[e.target := {}])
  {
    EndpointsAppend(edges, e);
    var known := if e.source in targets then targets[e.source] else {};
    var next := targets[e.source := known + {e.target}];
    var final := if e.target in next then next else next[e.target := {}];
    forall n | n in final ensures final[n] == TargetsOf(edges + [e], n) {
      TargetsAppend(edges, e, n);
      if n !in targets { NoTargets(edges, n); }
    }
  }

  lemma TargetsAppend(edges: seq<TypedEdge>, e: TypedEdge, n: Node)
    ensures TargetsOf(edges + [e], n) == TargetsOf(edges, n) + if n == e.source then {e.target} else {}
  {
    assert e in edges + [e];
    assert forall x :: x in edges + [e] <==> x in edges || x == e;
  }

  lemma EndpointsAppend(edges: seq<TypedEdge>, e: TypedEdge)
    ensures Endpoints(edges + [e]) == Endpoints(edges) + {e.source, e.target}
  {
    assert e in edges + [e];
    assert forall x :: x in edges + [e] <==> x in edges || x == e;
  }

  lemma NoTargets(edges: seq<TypedEdge>, n: Node)
    requires n !in Endpoints(edges)
    ensures TargetsOf(edges, n) == {}
  {
  }
}
