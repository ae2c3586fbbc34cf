/** Depth-first detection of one directed cycle. */
module DirectedCycle {
  import opened Ordering
  import opened Digraph

  /** A closed walk that repeats only its first node, as its last. */
  ghost predicate IsCycle(g: Graph, p: seq<Node>) {
    IsPath(g, p) && |p| > 1 && p[0] == p[|p| - 1] && Distinct(p[..|p| - 1])
  }

  lemma CycleRefutesAcyclic(g: Graph, p: seq<Node>)
    requires IsCycle(g, p)
    ensures OnCycle(g, p[0]) && !Acyclic(g)
  {
    assert Walk(g, p, p[0], p[0]);
  }

  /** What holds between visits: the active nodes form a path, finished nodes are closed and on no cycle. */
  ghost predicate SearchInvariant(g: Graph, visited: set<Node>, active: seq<Node>, activeSet: set<Node>) {
    && WellFormed(g)
    && activeSet == Elements(active) && Distinct(active)
    && activeSet <= visited <= g.Keys
    && (active != [] ==> IsPath(g, active))
    && ClosedUnder(g, visited - activeSet)
    && (forall u :: u in visited - activeSet ==> !OnCycle(g, u))
  }

  lemma EnterNode(g: Graph, visited: set<Node>, active: seq<Node>, activeSet: set<Node>, node: Node)
    requires SearchInvariant(g, visited, active, activeSet)
    requires node in g && node !in visited
    requires active != [] ==> Edge(g, active[|active| - 1], node)
    ensures SearchInvariant(g, visited + {node}, active + [node], activeSet + {node})
  {
    assert visited + {node} - (activeSet + {node}) == visited - activeSet;
    assert Elements(active + [node]) == Elements(active) + {node};
    assert Distinct(active + [node]) by {
      forall i | 0 <= i < |active| ensures active[i] != node { assert active[i] in Elements(active); }
    }
    if active != [] { ExtendWalk(g, active, active[0], active[|active| - 1], node); }
  }

  lemma LeaveNode(g: Graph, visited: set<Node>, active: seq<Node>, activeSet: set<Node>, node: Node)
    requires SearchInvariant(g, visited, active + [node], activeSet)
    requires forall v :: Edge(g, node, v) ==> v in visited - activeSet
    ensures SearchInvariant(g, visited, active, activeSet - {node})
  {
    var path := active + [node];
    assert path[|active|] == node && node in path;
    assert forall i :: 0 <= i < |active| ==> path[i] == active[i];
    assert Elements(path) == Elements(active) + {node};
    assert node !in active;
    if active != [] {
      assert path[0] in g;
      SubWalk(g, path, 0, |active| - 1);
      assert path[0..|active| - 1 + 1] == active;
    }
    WalkNodes(g, path);
    FinishedNode(g, visited - activeSet, node);
    assert visited - (activeSet - {node}) == visited - activeSet + {node};
  }

  lemma BackEdge(g: Graph, active: seq<Node>, index: nat, target: Node)
    requires WellFormed(g) && IsPath(g, active) && Distinct(active)
    requires index < |active| && active[index] == target && Edge(g, active[|active| - 1], target)
    ensures IsCycle(g, active[index..] + [target])
  {
    WalkNodes(g, active);
    SubWalk(g, active, index, |active| - 1);
    assert active[index..|active| - 1 + 1] == active[index..];
    ExtendWalk(g, active[index..], target, active[|active| - 1], target);
    var cycle := active[index..] + [target];
    assert cycle[..|cycle| - 1] == active[index..];
  }

  // ----- The search without memory -----

  function IndexOf(s: seq<Node>, x: Node): (i: nat)
    requires x in s
    ensures i < |s| && s[i] == x
  {
    if s[0] == x then 0 else IndexOf(s[1..], x) + 1
  }

  /** The first cycle met when every path is followed in order, remembering nothing but the path itself. */
  ghost function FirstCycle(g: Graph, active: seq<Node>, targets: seq<Node>): seq<Node>
    decreases |g.Keys - Elements(active)|, |targets|
  {
    if targets == [] then []
    else
      var target: Node := targets[0];
      var here := if target in active then active[IndexOf(active, target)..] + [target]
                  else if target in g then
                    LongerPath(g, active, target);
                    FirstCycle(g, active + [target], g[target])
                  else [];
      if here != [] then here else FirstCycle(g, active, targets[1..])
  }

  lemma LongerPath(g: Graph, active: seq<Node>, target: Node)
    requires target in g && target !in active
    ensures |g.Keys - Elements(active + [target])| < |g.Keys - Elements(active)|
  {
    FewerLeft(g.Keys, Elements(active), Elements(active + [target]), target);
  }

  /** Among finished nodes there is nothing to find, whatever path leads there: this is why they may be skipped. */
  lemma {:induction false} NothingFinished(g: Graph, finished: set<Node>, active: seq<Node>, rest: seq<Node>, targets: seq<Node>)
    requires WellFormed(g) && ClosedUnder(g, finished) && finished <= g.Keys && forall u :: u in finished ==> !OnCycle(g, u)
    requires (forall u :: u in active ==> u !in finished) && IsPath(g, rest) && forall u :: u in rest ==> u in finished
    requires forall t :: t in targets ==> Edge(g, rest[|rest| - 1], t)
    ensures FirstCycle(g, active + rest, targets) == []
    decreases |g.Keys - Elements(active + rest)|, |targets|
  {
    if targets != [] {
      var last: Node, target: Node := rest[|rest| - 1], targets[0];
      assert last in rest && target in targets && target in finished;
      assert forall t :: t in targets[1..] ==> t in targets;
      NothingFinished(g, finished, active, rest, targets[1..]);
      NotAgain(g, rest, target);
      LongerPath(g, active + rest, target);
      assert active + rest + [target] == active + (rest + [target]);
      assert forall t :: t in g[target] ==> Edge(g, target, t);
      NothingFinished(g, finished, active, rest + [target], g[target]);
    }
  }

  lemma NotAgain(g: Graph, rest: seq<Node>, target: Node)
    requires IsPath(g, rest) && Edge(g, rest[|rest| - 1], target) && target in g && !OnCycle(g, target)
    ensures target !in rest && IsPath(g, rest + [target])
  {
    ExtendWalk(g, rest, rest[0], rest[|rest| - 1], target);
    if target in rest {
      var k :| 0 <= k < |rest| && rest[k] == target;
      RepeatMakesCycle(g, rest + [target], k, |rest|);
    }
  }

  /** What is left to find after the first `i` targets. */
  ghost predicate StillToFind(g: Graph, active: seq<Node>, targets: seq<Node>, i: nat) {
    i <= |targets| && FirstCycle(g, active, targets) == FirstCycle(g, active, targets[i..])
  }

  /** `found` is what the search from `node` at the end of `active` meets first. */
  ghost predicate Finds(g: Graph, active: seq<Node>, node: Node, found: seq<Node>) {
    node in g && FindsAmong(g, active + [node], g[node], found)
  }

  ghost predicate FindsAmong(g: Graph, active: seq<Node>, targets: seq<Node>, found: seq<Node>) {
    found == FirstCycle(g, active, targets)
  }

  lemma FoundAt(g: Graph, active: seq<Node>, targets: seq<Node>, i: nat, found: seq<Node>)
    requires StillToFind(g, active, targets, i) && i < |targets|
    requires targets[i] !in active && Finds(g, active, targets[i], found)
    ensures if found != [] then FindsAmong(g, active, targets, found) else StillToFind(g, active, targets, i + 1)
  {
    var rest := targets[i..];
    assert rest[0] == targets[i] && rest[1..] == targets[i + 1..];
  }

  /** Coming back to the path closes a cycle, and it is the first. */
  lemma BackAt(g: Graph, active: seq<Node>, targets: seq<Node>, i: nat)
    requires WellFormed(g) && active != [] && IsPath(g, active) && Distinct(active)
    requires StillToFind(g, active, targets, i) && i < |targets|
    requires targets[i] in active && Edge(g, active[|active| - 1], targets[i])
    ensures var cycle := active[IndexOf(active, targets[i])..] + [targets[i]];
            FindsAmong(g, active, targets, cycle) && IsCycle(g, cycle)
  {
    BackEdge(g, active, IndexOf(active, targets[i]), targets[i]);
    assert targets[i..][0] == targets[i];
  }

  lemma NothingLeft(g: Graph, active: seq<Node>, targets: seq<Node>)
    requires StillToFind(g, active, targets, |targets|)
    ensures FindsAmong(g, active, targets, [])
  {
  }

  lemma AllLeft(g: Graph, active: seq<Node>, targets: seq<Node>)
    ensures StillToFind(g, active, targets, 0)
  {
    assert targets[0..] == targets;
  }

  /** A finished target is passed over. */
  lemma PassFinished(g: Graph, visited: set<Node>, active: seq<Node>, activeSet: set<Node>, targets: seq<Node>, i: nat)
    requires SearchInvariant(g, visited, active, activeSet) && StillToFind(g, active, targets, i) && i < |targets|
    requires targets[i] in visited && targets[i] !in activeSet
    ensures StillToFind(g, active, targets, i + 1)
  {
    var target: Node := targets[i];
    assert target !in active by { assert target !in Elements(active); }
    forall u | u in active ensures u !in visited - activeSet { assert u in Elements(active); }
    assert forall t :: t in g[target] ==> Edge(g, target, t);
    NothingFinished(g, visited - activeSet, active, [target], g[target]);
    FoundAt(g, active, targets, i, []);
  }

  class CycleSearch {
    const adjacency: Graph
    var visited: set<Node>
    var active: seq<Node>
    var activeSet: set<Node>

    constructor (g: Graph)
      requires WellFormed(g)
      ensures Valid() && adjacency == g && visited == {} && active == []
    {
      adjacency := g;
      visited, active, activeSet := {}, [], {};
    }

    ghost predicate Valid()
      reads this
    {
      SearchInvariant(adjacency, visited, active, activeSet)
    }

    method Visit(node: Node) returns (found: seq<Node>)
      requires Valid() && node in adjacency && node !in visited
      requires active != [] ==> Edge(adjacency, active[|active| - 1], node)
      modifies this
      ensures found == [] ==> Valid() && active == old(active) && old(visited) + {node} <= visited
      ensures found != [] ==> IsCycle(adjacency, found)
      ensures Finds(adjacency, old(active), node, found)
      decreases adjacency.Keys - visited, 0
    {
      EnterNode(adjacency, visited, active, activeSet, node);
      visited := visited + {node};
      active := active + [node];
      activeSet := activeSet + {node};
      found := VisitTargets(node);
      if found == [] {
        LeaveNode(adjacency, visited, old(active), activeSet, node);
        active := active[..|active| - 1];
        activeSet := activeSet - {node};
      }
    }

    /** The targets of the last active node, in order. */
    method VisitTargets(node: Node) returns (found: seq<Node>)
      requires Valid() && active != [] && active[|active| - 1] == node && node in adjacency
      modifies this
      ensures found == [] ==> Valid() && active == old(active) && activeSet == old(activeSet) && old(visited) <= visited
      ensures found == [] ==> forall v :: Edge(adjacency, node, v) ==> v in visited - activeSet
      ensures found != [] ==> IsCycle(adjacency, found)
      ensures FindsAmong(adjacency, old(active), adjacency[node], found)
      decreases adjacency.Keys - visited, 1
    {
      var targets := adjacency[node];
      AllLeft(adjacency, active, targets);
      for i := 0 to |targets|
        invariant Valid() && active == old(active) && activeSet == old(activeSet) && old(visited) <= visited
        invariant forall k :: 0 <= k < i ==> targets[k] in visited - activeSet
        invariant StillToFind(adjacency, active, targets, i)
      {
        var target := targets[i];
        assert Edge(adjacency, node, target);
        if target !in visited {
          NotActive(active, activeSet, visited, target);
          found := Visit(target);
          FoundAt(adjacency, old(active), targets, i, found);
          if found != [] { return; }
        } else if target in activeSet {
          BackAt(adjacency, active, targets, i);
          found := active[IndexOf(active, target)..] + [target];
          return;
        } else {
          PassFinished(adjacency, visited, active, activeSet, targets, i);
        }
      }
      NothingLeft(adjacency, active, targets);
      found := [];
    }
  }

  lemma NotActive(active: seq<Node>, activeSet: set<Node>, visited: set<Node>, target: Node)
    requires activeSet == Elements(active) && activeSet <= visited && target !in visited
    ensures target !in active
  {
    assert target !in Elements(active);
  }

  /** A node all of whose successors are finished lies on no cycle. */
  lemma FinishedNode(g: Graph, finished: set<Node>, node: Node)
    requires ClosedUnder(g, finished) && finished <= g.Keys && node !in finished
    requires forall v :: Edge(g, node, v) ==> v in finished
    ensures !OnCycle(g, node)
  {
    if p :| Walk(g, p, node, node) && |p| > 1 {
      assert Edge(g, p[0], p[0 + 1]);
      SubWalk(g, p, 1, |p| - 1);
      ClosedContainsReachable(g, finished, p[1], node);
    }
  }

  /** Empty exactly for acyclic graphs; otherwise the first cycle that following every path in order would meet. */
  method FindDirectedCycle(nodes: seq<Node>, g: Graph) returns (cycle: seq<Node>)
    requires WellFormed(g) && Elements(nodes) == g.Keys
    ensures cycle == [] <==> Acyclic(g)
    ensures cycle != [] ==> IsCycle(g, cycle)
    ensures FindsAmong(g, [], nodes, cycle)
  {
    var search := new CycleSearch(g);
    AllLeft(g, [], nodes);
    for i := 0 to |nodes|
      invariant search.Valid() && search.active == [] && search.adjacency == g && fresh(search)
      invariant forall k :: 0 <= k < i ==> nodes[k] in search.visited
      invariant StillToFind(g, [], nodes, i)
    {
      if nodes[i] in search.visited {
        PassFinished(g, search.visited, search.active, search.activeSet, nodes, i);
      } else {
        assert nodes[i] in Elements(nodes);
        cycle := search.Visit(nodes[i]);
        FoundAt(g, [], nodes, i, cycle);
        if cycle != [] {
          CycleRefutesAcyclic(g, cycle);
          return;
        }
      }
    }
    forall u | u in g ensures !OnCycle(g, u) {
      assert u in Elements(nodes);
      assert u in search.visited - search.activeSet;
    }
    NothingLeft(g, [], nodes);
    cycle := [];
  }
}
