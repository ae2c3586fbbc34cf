/** The harness registry: prerequisite validation, the cycle check, and the dependency closure. */
module Registry {
  import opened Ordering
  import opened Digraph
  import opened DirectedCycle
  import opened Containment

  datatype SchemaVersion = Schema100 | Schema110 | Schema120 | UnsupportedSchema

  datatype Status = Specified | Implemented | Deferred

  datatype Prerequisites = Missing | Listed(ids: seq<Node>)

  datatype Harness = Harness(id: Node, status: Status, prerequisites: Prerequisites)

  datatype HarnessRegistry = HarnessRegistry(schema: SchemaVersion, harnesses: seq<Harness>)

  datatype OptionalHarness = NoHarness | Found(harness: Harness)

  // ----- Lookups -----

  predicate UniqueHarnesses(hs: seq<Harness>) {
    forall i, j :: 0 <= i < j < |hs| ==> hs[i].id != hs[j].id
  }

  function HarnessIds(hs: seq<Harness>): set<Node> {
    set h | h in hs :: h.id
  }

  /** The first harness with the identifier. */
  function GetHarness(hs: seq<Harness>, id: Node): (r: OptionalHarness)
    ensures r.NoHarness? <==> id !in HarnessIds(hs)
    ensures r.Found? ==> r.harness in hs && r.harness.id == id
  {
    if hs == [] then NoHarness
    else if hs[0].id == id then Found(hs[0])
    else
      assert hs == [hs[0]] + hs[1..];
      GetHarness(hs[1..], id)
  }

  /** The first position with the identifier. */
  ghost predicate IsFirst(hs: seq<Harness>, id: Node, i: int) {
    0 <= i < |hs| && hs[i].id == id && forall k :: 0 <= k < i ==> hs[k].id != id
  }

  lemma {:induction false} GetsFirst(hs: seq<Harness>, id: Node, i: int)
    requires IsFirst(hs, id, i)
    ensures GetHarness(hs, id) == Found(hs[i])
  {
    if i > 0 {
      assert hs[0].id != id;
      forall k | 0 <= k < i - 1 ensures hs[1..][k].id != id { assert hs[1..][k] == hs[k + 1]; }
      GetsFirst(hs[1..], id, i - 1);
    }
  }

  lemma {:induction false} FirstExists(hs: seq<Harness>, id: Node) returns (i: int)
    requires id in HarnessIds(hs)
    ensures IsFirst(hs, id, i)
  {
    i := 0;
    while hs[i].id != id
      invariant 0 <= i < |hs| && forall k :: 0 <= k < i ==> hs[k].id != id
      decreases |hs| - i
    {
      var h :| h in hs && h.id == id;
      var n :| 0 <= n < |hs| && hs[n] == h;
      i := i + 1;
    }
  }

  /** The graph: a node for every identifier, and an edge to everything the first entry with the identifier lists as a prerequisite. */
  lemma PrerequisiteGraphMeaning(hs: seq<Harness>)
    ensures forall id :: id in PrerequisiteGraph(hs) <==> exists i :: 0 <= i < |hs| && hs[i].id == id
    ensures forall u, v :: Edge(PrerequisiteGraph(hs), u, v) <==>
                             exists i :: IsFirst(hs, u, i) && hs[i].prerequisites.Listed? && v in hs[i].prerequisites.ids
  {
    var g := PrerequisiteGraph(hs);
    forall u, v
      ensures Edge(g, u, v) <==> exists i :: IsFirst(hs, u, i) && hs[i].prerequisites.Listed? && v in hs[i].prerequisites.ids
    {
      EntryOf(hs, u);
    }
    forall id ensures id in g <==> exists i :: 0 <= i < |hs| && hs[i].id == id {
      if i :| 0 <= i < |hs| && hs[i].id == id { assert hs[i] in hs; }
    }
  }

  lemma EntryOf(hs: seq<Harness>, u: Node)
    ensures forall i :: IsFirst(hs, u, i) ==> GetHarness(hs, u) == Found(hs[i]) && u in PrerequisiteGraph(hs)
    ensures u in PrerequisiteGraph(hs) ==> exists i :: IsFirst(hs, u, i) && PrerequisiteGraph(hs)[u] == Targets(hs[i].prerequisites)
  {
    forall i | IsFirst(hs, u, i) ensures GetHarness(hs, u) == Found(hs[i]) && u in PrerequisiteGraph(hs) {
      GetsFirst(hs, u, i);
      assert hs[i] in hs;
    }
    if u in HarnessIds(hs) {
      var i := FirstExists(hs, u);
      GetsFirst(hs, u, i);
    }
  }

  function Targets(p: Prerequisites): seq<Node> {
    if p.Listed? then p.ids else []
  }

  /** The edges from each harness to its prerequisites. */
  function PrerequisiteGraph(hs: seq<Harness>): Graph {
    map id | id in HarnessIds(hs) :: Targets(GetHarness(hs, id).harness.prerequisites)
  }

  lemma {:induction false} UniqueLookup(hs: seq<Harness>, i: nat)
    requires UniqueHarnesses(hs) && i < |hs|
    ensures GetHarness(hs, hs[i].id) == Found(hs[i])
  {
    if i > 0 {
      UniqueLookup(hs[1..], i - 1);
    }
  }

  lemma GraphEntry(hs: seq<Harness>, i: nat)
    requires UniqueHarnesses(hs) && i < |hs|
    ensures hs[i].id in PrerequisiteGraph(hs)
    ensures PrerequisiteGraph(hs)[hs[i].id] == Targets(hs[i].prerequisites)
  {
    assert hs[i] in hs;
    UniqueLookup(hs, i);
  }

  // ----- Validation of one prerequisite list -----

  ghost predicate LegalPrerequisites(prereqs: seq<Node>, id: Node, allIds: set<Node>) {
    Distinct(prereqs) && id !in prereqs && forall p :: p in prereqs ==> p in allIds
  }

  method ValidatePrerequisites(prereqs: seq<Node>, id: Node, allIds: set<Node>) returns (ok: bool)
    ensures ok <==> LegalPrerequisites(prereqs, id, allIds)
  {
    DistinctIffCount(prereqs);
    if |prereqs| != |Elements(prereqs)| || id in prereqs {
      return false;
    }
    for i := 0 to |prereqs|
      invariant forall k :: 0 <= k < i ==> prereqs[k] in allIds
    {
      var p: Node := prereqs[i];
      if p !in allIds {
        assert p in prereqs;
        return false;
      }
    }
    ok := true;
  }

  // ----- Reversing the prerequisite edges -----

  ghost predicate LegalGraph(g: Graph) {
    && (forall u, v :: Edge(g, u, v) ==> v in g)
    && (forall u :: u in g ==> Distinct(g[u]))
  }

  /** `a` holds the edges of `g` turned round, each once. */
  ghost predicate Reverses(g: Graph, a: Graph) {
    && a.Keys == g.Keys
    && (forall p, h :: Edge(a, p, h) <==> Edge(g, h, p))
    && (forall p :: p in a ==> Distinct(a[p]))
  }

  /** `degree` counts the prerequisites. */
  ghost predicate PrerequisiteCounts(g: Graph, degree: map<Node, nat>) {
    degree.Keys == g.Keys && forall h :: h in g ==> degree[h] == |g[h]|
  }

  lemma ReverseOne(part: Graph, a: Graph, h: Node, p: Node)
    requires Reverses(part, a) && h in part && p in part && p !in part[h]
    ensures Reverses(part[h := part[h] + [p]], a[p := a[p] + [h]])
  {
    var part', a' := part[h := part[h] + [p]], a[p := a[p] + [h]];
    assert !Edge(part, h, p) && !Edge(a, p, h);
    forall x, y ensures Edge(a', x, y) <==> Edge(part', y, x) {
      assert Edge(a, x, y) <==> Edge(part, y, x);
      assert Edge(part', y, x) <==> Edge(part, y, x) || (y == h && x == p);
      assert Edge(a', x, y) <==> Edge(a, x, y) || (y == h && x == p);
    }
  }

  method AddDependents(h: Node, prereqs: seq<Node>, a: Graph, degree: map<Node, nat>, ghost part: Graph)
    returns (a': Graph, degree': map<Node, nat>)
    requires Reverses(part, a) && PrerequisiteCounts(part, degree) && h in part && part[h] == []
    requires Distinct(prereqs) && forall p :: p in prereqs ==> p in part
    ensures Reverses(part[h := prereqs], a') && PrerequisiteCounts(part[h := prereqs], degree')
  {
    a', degree' := a, degree;
    ghost var now := part;
    ghost var seen: seq<Node> := [];
    for j := 0 to |prereqs|
      invariant seen == prereqs[..j] && now == part[h := seen]
      invariant Reverses(now, a') && PrerequisiteCounts(now, degree')
    {
      var p: Node := prereqs[j];
      assert p in prereqs && p !in seen;
      ReverseOne(now, a', h, p);
      a' := a'[p := a'[p] + [h]];
      degree' := degree'[h := degree'[h] + 1];
      seen := seen + [p];
      now := now[h := now[h] + [p]];
    }
    assert seen == prereqs;
  }

  /** `g` is the prerequisite graph of the uniquely named harnesses `hs`. */
  ghost predicate GraphOf(hs: seq<Harness>, g: Graph) {
    && (forall k :: 0 <= k < |hs| ==> hs[k].id in g && g[hs[k].id] == Targets(hs[k].prerequisites))
    && (forall id :: id in g ==> exists k :: 0 <= k < |hs| && hs[k].id == id)
  }

  lemma GraphOfUnique(hs: seq<Harness>)
    requires UniqueHarnesses(hs)
    ensures GraphOf(hs, PrerequisiteGraph(hs))
  {
    forall k | 0 <= k < |hs|
      ensures hs[k].id in PrerequisiteGraph(hs) && PrerequisiteGraph(hs)[hs[k].id] == Targets(hs[k].prerequisites)
    {
      GraphEntry(hs, k);
    }
    forall id | id in PrerequisiteGraph(hs) ensures exists k :: 0 <= k < |hs| && hs[k].id == id {
      var h :| h in hs && h.id == id;
      var k :| 0 <= k < |hs| && hs[k] == h;
    }
  }

  /** `part` has the entries of `g` for the first `i` harnesses and none yet for the others. */
  ghost predicate PartOf(hs: seq<Harness>, g: Graph, part: Graph, i: nat) {
    && part.Keys == g.Keys
    && forall k :: 0 <= k < |hs| && hs[k].id in part && hs[k].id in g ==> part[hs[k].id] == if k < i then g[hs[k].id] else []
  }

  lemma PartGrows(hs: seq<Harness>, g: Graph, part: Graph, i: nat)
    requires UniqueHarnesses(hs) && GraphOf(hs, g) && LegalGraph(g) && i < |hs| && PartOf(hs, g, part, i)
    ensures var id, targets := hs[i].id, Targets(hs[i].prerequisites);
            && id in part && part[id] == []
            && Distinct(targets) && (forall p :: p in targets ==> p in part)
            && PartOf(hs, g, part[id := targets], i + 1)
  {
    var id, targets := hs[i].id, Targets(hs[i].prerequisites);
    forall p | p in targets ensures p in part { assert Edge(g, id, p); }
    forall k | 0 <= k < |hs|
      ensures part[id := targets][hs[k].id] == if k < i + 1 then g[hs[k].id] else []
    {
      assert k != i ==> hs[k].id != id;
    }
  }

  lemma PartEnds(hs: seq<Harness>, g: Graph, part: Graph)
    requires GraphOf(hs, g) && PartOf(hs, g, part, |hs|)
    ensures part == g
  {
    forall id | id in part ensures part[id] == g[id] {
      var k :| 0 <= k < |hs| && hs[k].id == id;
    }
  }

  lemma GraphKeys(hs: seq<Harness>, g: Graph)
    requires GraphOf(hs, g)
    ensures (set i | 0 <= i < |hs| :: hs[i].id) == g.Keys
  {
    assert forall id :: id in g <==> exists k :: 0 <= k < |hs| && hs[k].id == id;
  }

  lemma NoneReversed(g: Graph, none: Graph)
    requires none.Keys == g.Keys && forall id :: id in none ==> none[id] == []
    ensures Reverses(none, none)
  {
  }

  /** The tables after the first `i` harnesses. */
  ghost predicate Filled(hs: seq<Harness>, g: Graph, part: Graph, i: nat, a: Graph, degree: map<Node, nat>) {
    PartOf(hs, g, part, i) && Reverses(part, a) && PrerequisiteCounts(part, degree)
  }

  lemma FilledNext(hs: seq<Harness>, g: Graph, part: Graph, i: nat, a: Graph, degree: map<Node, nat>)
    requires UniqueHarnesses(hs) && GraphOf(hs, g) && LegalGraph(g) && i < |hs| && Filled(hs, g, part, i, a, degree)
    ensures var id, targets := hs[i].id, Targets(hs[i].prerequisites);
            && id in part && part[id] == [] && Distinct(targets) && (forall p :: p in targets ==> p in part)
            && PartOf(hs, g, part[id := targets], i + 1)
  {
    PartGrows(hs, g, part, i);
  }

  method EmptyTables(hs: seq<Harness>, ghost g: Graph) returns (a: Graph, degree: map<Node, nat>)
    requires GraphOf(hs, g)
    ensures Filled(hs, g, a, 0, a, degree)
  {
    var ids := set i | 0 <= i < |hs| :: hs[i].id;
    a := map id | id in ids :: [];
    degree := map id | id in ids :: 0;
    GraphKeys(hs, g);
    NoneReversed(g, a);
  }

  /** The adjacency and in-degree tables of the cycle check. */
  method Dependents(hs: seq<Harness>, ghost g: Graph) returns (a: Graph, degree: map<Node, nat>)
    requires UniqueHarnesses(hs) && GraphOf(hs, g) && LegalGraph(g)
    ensures Reverses(g, a) && PrerequisiteCounts(g, degree)
  {
    a, degree := EmptyTables(hs, g);
    ghost var part := a;
    for i := 0 to |hs|
      invariant Filled(hs, g, part, i, a, degree)
    {
      var id, targets := hs[i].id, Targets(hs[i].prerequisites);
      FilledNext(hs, g, part, i, a, degree);
      a, degree := AddDependents(id, targets, a, degree, part);
      part := part[id := targets];
    }
    PartEnds(hs, g, part);
  }

  // ----- The cycle check -----

  /** The counted harnesses: closed under prerequisites, and on no cycle. */
  ghost predicate ClearedPart(g: Graph, done: set<Node>) {
    done <= g.Keys && ClosedUnder(g, done) && forall u :: u in done ==> !OnCycle(g, u)
  }

  /** The queue holds exactly the harnesses of `left` with no prerequisite in `left`. */
  ghost predicate IsQueue(left: set<Node>, degree: map<Node, nat>, queue: seq<Node>) {
    Distinct(queue) && forall v :: v in queue <==> v in left && v in degree && degree[v] == 0
  }

  ghost predicate CheckInvariant(g: Graph, a: Graph, done: set<Node>, degree: map<Node, nat>, queue: seq<Node>) {
    ClearedPart(g, done) && Counts(a, g.Keys - done, degree, []) && IsQueue(g.Keys - done, degree, queue)
  }

  lemma ReversedDegrees(g: Graph, a: Graph, degree: map<Node, nat>)
    requires LegalGraph(g) && Reverses(g, a) && PrerequisiteCounts(g, degree)
    ensures Counts(a, g.Keys, degree, [])
  {
    forall v | v in a ensures degree[v] == |Preds(a, g.Keys, v)| {
      forall u ensures u in Preds(a, g.Keys, v) <==> u in Elements(g[v]) {
        assert Edge(g, v, u) <==> Edge(a, u, v);
      }
      assert Preds(a, g.Keys, v) == Elements(g[v]);
      DistinctCount(g[v]);
    }
  }

  /** A harness ready to be counted has all its prerequisites counted and none of its dependents. */
  lemma ReadyIsClear(g: Graph, a: Graph, done: set<Node>, node: Node)
    requires Reverses(g, a) && LegalGraph(g) && ClearedPart(g, done)
    requires node in g && node !in done && Preds(a, g.Keys - done, node) == {}
    ensures ClearedPart(g, done + {node})
    ensures forall v :: Edge(a, node, v) ==> v in g.Keys - (done + {node})
  {
    forall p | Edge(g, node, p) ensures p in done {
      assert Edge(a, p, node);
      assert p !in Preds(a, g.Keys - done, node);
    }
    FinishedNode(g, done, node);
    forall v | Edge(a, node, v) ensures v in g.Keys - (done + {node}) {
      assert Edge(g, v, node);
    }
  }

  lemma CountReady(g: Graph, a: Graph, done: set<Node>, degree: map<Node, nat>, queue: seq<Node>)
    requires LegalGraph(g) && Reverses(g, a)
    requires CheckInvariant(g, a, done, degree, queue) && queue != []
    ensures var node, left := queue[|queue| - 1], g.Keys - (done + {queue[|queue| - 1]});
            && node in a && node !in done
            && ClearedPart(g, done + {node})
            && (forall v :: Edge(a, node, v) ==> v in left)
            && Counts(a, left, degree, a[node])
            && IsQueue(left, degree, queue[..|queue| - 1])
  {
    var node: Node := queue[|queue| - 1];
    assert node in queue && queue == queue[..|queue| - 1] + [node];
    assert Preds(a, g.Keys - done, node) == {};
    ReadyIsClear(g, a, done, node);
    var left := g.Keys - (done + {node});
    assert g.Keys - done == left + {node};
    CountsGrow(a, left, node, degree);
  }

  method ReleaseDependents(a: Graph, ghost left: set<Node>, node: Node, degree: map<Node, nat>, queue: seq<Node>)
    returns (degree': map<Node, nat>, queue': seq<Node>)
    requires node in a && Distinct(a[node]) && left <= a.Keys
    requires forall v :: Edge(a, node, v) ==> v in left
    requires Counts(a, left, degree, a[node]) && IsQueue(left, degree, queue)
    ensures Counts(a, left, degree', []) && IsQueue(left, degree', queue')
  {
    degree', queue' := degree, queue;
    var targets := a[node];
    for j := 0 to |targets|
      invariant Counts(a, left, degree', targets[j..])
      invariant IsQueue(left, degree', queue')
    {
      var target: Node := targets[j];
      assert Edge(a, node, target);
      CountsDecrement(a, left, degree', targets, j);
      degree' := degree'[target := degree'[target] - 1];
      if degree'[target] == 0 {
        queue' := queue' + [target];
      }
    }
  }

  /** A harness from which the prerequisites lead to a cycle. */
  ghost predicate LeadsToCycle(g: Graph, u: Node) {
    exists c :: Reaches(g, u, c) && OnCycle(g, c)
  }

  function Backwards(p: seq<Node>): (r: seq<Node>)
    ensures |r| == |p| && forall i :: 0 <= i < |p| ==> r[i] == p[|p| - 1 - i]
  {
    seq(|p|, i requires 0 <= i < |p| => p[|p| - 1 - i])
  }

  lemma ReverseWalk(g: Graph, a: Graph, p: seq<Node>, u: Node, v: Node)
    requires Reverses(g, a) && Walk(a, p, u, v) && v in g
    ensures Walk(g, Backwards(p), v, u)
  {
    var r := Backwards(p);
    forall i | 0 <= i < |r| - 1 ensures Edge(g, r[i], r[i + 1]) {
      var k := |p| - 2 - i;
      assert Edge(a, p[k], p[k + 1]);
    }
  }

  /** Every harness of `left` waits for another one of `left`. */
  ghost predicate Stuck(a: Graph, left: set<Node>) {
    left <= a.Keys && forall x :: x in left ==> Preds(a, left, x) != {}
  }

  lemma LeftoverLeadsToCycle(g: Graph, a: Graph, left: set<Node>, v: Node)
    requires Reverses(g, a) && Stuck(a, left) && v in left
    ensures LeadsToCycle(g, v)
  {
    var c := CycleBehind(a, left, [v]);
    var p :| Walk(a, p, c, v);
    var q :| Walk(a, q, c, c) && |q| > 1;
    ReverseWalk(g, a, p, c, v);
    ReverseWalk(g, a, q, c, c);
    assert Reaches(g, v, c) && OnCycle(g, c);
  }

  lemma ClearedLeadsNowhere(g: Graph, a: Graph, done: set<Node>, v: Node)
    requires Reverses(g, a) && ClearedPart(g, done) && v in done
    ensures !LeadsToCycle(g, v) && Preds(a, g.Keys - done, v) == {}
  {
    forall u | Edge(a, u, v) ensures u in done { assert Edge(g, v, u); }
    forall c | Reaches(g, v, c) ensures !OnCycle(g, c) { ClosedContainsReachable(g, done, v, c); }
  }

  lemma CycleIsInside(g: Graph, v: Node)
    requires LeadsToCycle(g, v)
    ensures !Acyclic(g)
  {
    var c :| Reaches(g, v, c) && OnCycle(g, c);
    var q :| Walk(g, q, c, c) && |q| > 1;
    assert c in g;
  }

  lemma NoneReady(a: Graph, left: set<Node>, degree: map<Node, nat>)
    requires left <= a.Keys && Counts(a, left, degree, []) && IsQueue(left, degree, [])
    ensures Stuck(a, left) && forall x :: x in left ==> degree[x] != 0
  {
  }

  lemma CountedDegree(a: Graph, left: set<Node>, degree: map<Node, nat>, v: Node)
    requires Counts(a, left, degree, []) && v in a && Preds(a, left, v) == {}
    ensures degree[v] == 0
  {
  }

  lemma CountedDone(g: Graph, a: Graph, done: set<Node>, degree: map<Node, nat>, v: Node)
    requires Reverses(g, a) && CheckInvariant(g, a, done, degree, []) && v in done
    ensures degree[v] == 0 && !LeadsToCycle(g, v)
  {
    ClearedLeadsNowhere(g, a, done, v);
    CountedDegree(a, g.Keys - done, degree, v);
  }

  lemma LeftoverStuck(g: Graph, a: Graph, left: set<Node>, degree: map<Node, nat>, v: Node)
    requires Reverses(g, a) && v in left && left <= a.Keys
    requires Counts(a, left, degree, []) && IsQueue(left, degree, [])
    ensures degree[v] != 0 && LeadsToCycle(g, v)
  {
    NoneReady(a, left, degree);
    LeftoverLeadsToCycle(g, a, left, v);
  }

  lemma CheckEnd(g: Graph, a: Graph, done: set<Node>, degree: map<Node, nat>)
    requires Reverses(g, a) && CheckInvariant(g, a, done, degree, [])
    ensures |done| == |g.Keys| <==> Acyclic(g)
  {
    if done != g.Keys {
      var v := PickMissing(g.Keys, done);
      SubsetSize(done + {v}, g.Keys);
      LeftoverStuck(g, a, g.Keys - done, degree, v);
      CycleIsInside(g, v);
    }
  }

  /** The harnesses without prerequisites, in registry order. */
  method InitialQueue(hs: seq<Harness>, ghost g: Graph, degree: map<Node, nat>) returns (queue: seq<Node>)
    requires UniqueHarnesses(hs) && GraphOf(hs, g) && degree.Keys == g.Keys
    ensures IsQueue(g.Keys, degree, queue)
  {
    queue := [];
    for i := 0 to |hs|
      invariant Distinct(queue)
      invariant forall v :: v in queue <==> exists k :: 0 <= k < i && hs[k].id == v && degree[hs[k].id] == 0
    {
      var id: Node := hs[i].id;
      if degree[id] == 0 {
        assert id !in queue;
        queue := queue + [id];
      }
    }
  }

  /** The main loop: count ready harnesses until none is left. */
  method CountHarnesses(ghost g: Graph, a: Graph, degree0: map<Node, nat>, queue0: seq<Node>)
    returns (sortedCount: nat, degree: map<Node, nat>)
    requires LegalGraph(g) && Reverses(g, a)
    requires Counts(a, g.Keys, degree0, []) && IsQueue(g.Keys, degree0, queue0)
    ensures sortedCount == |g.Keys| <==> Acyclic(g)
    ensures degree.Keys == g.Keys && forall v :: v in g ==> (degree[v] != 0 <==> LeadsToCycle(g, v))
  {
    degree, sortedCount := degree0, 0;
    var queue := queue0;
    ghost var done: set<Node> := {};
    assert g.Keys - done == g.Keys;
    while queue != []
      invariant CheckInvariant(g, a, done, degree, queue) && sortedCount == |done|
      decreases g.Keys - done
    {
      CountReady(g, a, done, degree, queue);
      var node := queue[|queue| - 1];
      queue := queue[..|queue| - 1];
      sortedCount := sortedCount + 1;
      done := done + {node};
      degree, queue := ReleaseDependents(a, g.Keys - done, node, degree, queue);
    }
    CheckEnd(g, a, done, degree);
    forall v | v in g ensures degree[v] != 0 <==> LeadsToCycle(g, v) {
      if v in done { CountedDone(g, a, done, degree, v); } else { LeftoverStuck(g, a, g.Keys - done, degree, v); }
    }
  }

  /** Accepts exactly the acyclic prerequisite graphs; otherwise names the harnesses that lead to a cycle. */
  method ValidatePrerequisiteCycles(hs: seq<Harness>, ghost g: Graph) returns (ok: bool, cyclic: seq<Node>)
    requires UniqueHarnesses(hs) && GraphOf(hs, g) && LegalGraph(g)
    ensures ok <==> Acyclic(g)
    ensures !ok ==> Increasing(cyclic) && forall v :: v in cyclic <==> v in g && LeadsToCycle(g, v)
  {
    var a, degree := Dependents(hs, g);
    ReversedDegrees(g, a, degree);
    var queue := InitialQueue(hs, g, degree);
    var sortedCount;
    sortedCount, degree := CountHarnesses(g, a, degree, queue);
    ok, cyclic := sortedCount == |a.Keys|, [];
    if !ok {
      cyclic := SortedNodes(set v | v in degree && degree[v] != 0);
    }
  }
}
