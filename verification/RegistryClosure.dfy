/** Whole-registry validation, and the depth-first dependency closure of a target harness. */
module RegistryClosure {
  import opened Ordering
  import opened Digraph
  import opened DirectedCycle
  import opened Registry
  import opened ClosureOrder

  // ----- Accepted registries -----

  ghost predicate LegalEntry(schema: SchemaVersion, h: Harness, allIds: set<Node>) {
    && (schema != Schema100 ==> h.prerequisites.Listed?)
    && (h.prerequisites.Listed? ==> LegalPrerequisites(h.prerequisites.ids, h.id, allIds))
  }

  ghost predicate LegalEntries(r: HarnessRegistry) {
    forall k :: 0 <= k < |r.harnesses| ==> LegalEntry(r.schema, r.harnesses[k], HarnessIds(r.harnesses))
  }

  /** What validation accepts about schema, identifiers and prerequisites. */
  ghost predicate Accepted(r: HarnessRegistry) {
    && !r.schema.UnsupportedSchema? && r.harnesses != []
    && UniqueHarnesses(r.harnesses)
    && LegalEntries(r)
    && Acyclic(PrerequisiteGraph(r.harnesses))
  }

  lemma LegalEntriesGraph(r: HarnessRegistry)
    requires UniqueHarnesses(r.harnesses) && LegalEntries(r)
    ensures GraphOf(r.harnesses, PrerequisiteGraph(r.harnesses)) && LegalGraph(PrerequisiteGraph(r.harnesses))
  {
    GraphOfUnique(r.harnesses);
    var g := PrerequisiteGraph(r.harnesses);
    forall u | u in g ensures Distinct(g[u]) && forall v :: v in g[u] ==> v in g {
      var k :| 0 <= k < |r.harnesses| && r.harnesses[k].id == u;
      assert LegalEntry(r.schema, r.harnesses[k], HarnessIds(r.harnesses));
    }
  }

  method UniqueIdentifiers(hs: seq<Harness>) returns (ok: bool, seen: set<Node>)
    ensures ok <==> UniqueHarnesses(hs)
    ensures ok ==> seen == HarnessIds(hs)
  {
    seen := {};
    for i := 0 to |hs|
      invariant UniqueHarnesses(hs[..i])
      invariant forall id :: id in seen <==> exists k :: 0 <= k < i && hs[k].id == id
    {
      if hs[i].id in seen {
        return false, seen;
      }
      seen := seen + {hs[i].id};
    }
    assert hs[..|hs|] == hs;
    ok := true;
    forall id ensures id in seen <==> id in HarnessIds(hs) {
      if id in HarnessIds(hs) {
        var h :| h in hs && h.id == id;
        var k :| 0 <= k < |hs| && hs[k] == h;
      }
    }
  }

  method EntriesLegal(r: HarnessRegistry, seen: set<Node>) returns (ok: bool)
    requires seen == HarnessIds(r.harnesses)
    ensures ok <==> LegalEntries(r)
  {
    for i := 0 to |r.harnesses|
      invariant forall k :: 0 <= k < i ==> LegalEntry(r.schema, r.harnesses[k], seen)
    {
      var h := r.harnesses[i];
      if r.schema != Schema100 && h.prerequisites.Missing? {
        return false;
      }
      if h.prerequisites.Listed? {
        var legal := ValidatePrerequisites(h.prerequisites.ids, h.id, seen);
        if !legal {
          return false;
        }
      }
    }
    ok := true;
  }

  method ValidateRegistry(r: HarnessRegistry) returns (ok: bool)
    ensures ok <==> Accepted(r)
  {
    if r.schema.UnsupportedSchema? || r.harnesses == [] {
      return false;
    }
    var unique, seen := UniqueIdentifiers(r.harnesses);
    if !unique {
      return false;
    }
    ok := EntriesLegal(r, seen);
    if ok {
      LegalEntriesGraph(r);
      var cyclic;
      ok, cyclic := ValidatePrerequisiteCycles(r.harnesses, PrerequisiteGraph(r.harnesses));
    }
  }

  // ----- The closure -----

  datatype Outcome =
    | Visited
    | CycleAt(id: Node)
    | UnknownHarness(id: Node)
    | NotImplemented(id: Node)
    | InvalidPrerequisites(id: Node)

  /** What a closure needs of a harness: it exists, is implemented, and declares its prerequisites. */
  predicate Usable(r: HarnessRegistry, id: Node) {
    var found := GetHarness(r.harnesses, id);
    && found.Found? && found.harness.status == Implemented
    && (found.harness.prerequisites.Listed? || r.schema == Schema100)
  }

  /** Usable means: the first entry with the identifier is implemented, and lists its prerequisites unless the schema is the oldest. */
  lemma UsableMeans(r: HarnessRegistry, id: Node)
    ensures Usable(r, id) <==>
            exists i :: IsFirst(r.harnesses, id, i) && r.harnesses[i].status == Implemented &&
                        (r.harnesses[i].prerequisites.Listed? || r.schema == Schema100)
  {
    EntryOf(r.harnesses, id);
    var found := GetHarness(r.harnesses, id);
    if found.Found? {
      var i := FirstExists(r.harnesses, id);
    }
  }

  ghost predicate Needed(g: Graph, target: Node, v: Node) {
    v == target || Reaches(g, target, v)
  }

  /** Each error names a needed harness that has the defect. */
  ghost predicate Refuted(r: HarnessRegistry, g: Graph, target: Node, error: Outcome) {
    match error
    case Visited => false
    case CycleAt(v) => Needed(g, target, v) && OnCycle(g, v)
    case UnknownHarness(v) => Needed(g, target, v) && GetHarness(r.harnesses, v).NoHarness?
    case NotImplemented(v) =>
      Needed(g, target, v) && GetHarness(r.harnesses, v).Found? && GetHarness(r.harnesses, v).harness.status != Implemented
    case InvalidPrerequisites(v) =>
      && Needed(g, target, v) && GetHarness(r.harnesses, v).Found? && r.schema != Schema100
      && GetHarness(r.harnesses, v).harness.prerequisites.Missing?
  }

  ghost predicate PrerequisitesFirst(g: Graph, ordered: seq<Node>) {
    forall i, p :: 0 <= i < |ordered| && Edge(g, ordered[i], p) ==> p in ordered[..i]
  }

  /** The finished part: ordered, closed, usable, and on no cycle. */
  ghost predicate FinishedPart(r: HarnessRegistry, g: Graph, ordered: seq<Node>, visited: set<Node>) {
    && visited == Elements(ordered) && Distinct(ordered) && PrerequisitesFirst(g, ordered)
    && visited <= g.Keys && ClosedUnder(g, visited)
    && forall v :: v in visited ==> Usable(r, v) && !OnCycle(g, v)
  }

  /** The harnesses being visited form a path, none of them finished. */
  ghost predicate OpenPart(g: Graph, visited: set<Node>, visiting: set<Node>, stack: seq<Node>) {
    && visiting == Elements(stack) && visiting <= g.Keys && visiting !! visited
    && (stack != [] ==> IsPath(g, stack))
  }

  /** What was visited on behalf of `id`, beyond `before`, is needed by it. */
  ghost predicate Grown(g: Graph, id: Node, before: set<Node>, visited: set<Node>) {
    before <= visited && forall v :: v in visited && v !in before ==> Needed(g, id, v)
  }

  lemma GrownThrough(g: Graph, id: Node, p: Node, first: set<Node>, before: set<Node>, visited: set<Node>)
    requires Edge(g, id, p) && Grown(g, id, first, before) && Grown(g, p, before, visited)
    ensures Grown(g, id, first, visited)
  {
    forall v | v in visited && v !in before ensures Needed(g, id, v) { NeededThrough(g, id, p, v); }
  }

  /** What holds between visits. */
  ghost predicate SearchState(r: HarnessRegistry, g: Graph, ordered: seq<Node>, visited: set<Node>, visiting: set<Node>, stack: seq<Node>) {
    FinishedPart(r, g, ordered, visited) && OpenPart(g, visited, visiting, stack)
  }

  ghost predicate MayVisit(g: Graph, stack: seq<Node>, id: Node) {
    stack != [] ==> Edge(g, stack[|stack| - 1], id)
  }

  lemma OpenHarness(r: HarnessRegistry, g: Graph, ordered: seq<Node>, visited: set<Node>, visiting: set<Node>, stack: seq<Node>, id: Node)
    requires SearchState(r, g, ordered, visited, visiting, stack) && MayVisit(g, stack, id)
    requires id in g && id !in visited
    ensures SearchState(r, g, ordered, visited, visiting + {id}, stack + [id])
  {
    if stack != [] {
      ExtendWalk(g, stack, stack[0], stack[|stack| - 1], id);
    }
  }

  lemma FinishHarness(r: HarnessRegistry, g: Graph, ordered: seq<Node>, visited: set<Node>, id: Node)
    requires FinishedPart(r, g, ordered, visited)
    requires id in g && id !in visited && Usable(r, id)
    requires forall p :: Edge(g, id, p) ==> p in visited
    ensures FinishedPart(r, g, ordered + [id], visited + {id})
  {
    FinishedNode(g, visited, id);
    var next := ordered + [id];
    assert Elements(next) == visited + {id};
    assert forall i :: 0 <= i < |ordered| ==> ordered[i] in Elements(ordered);
    forall i, p | 0 <= i < |next| && Edge(g, next[i], p) ensures p in next[..i] {
      if i < |ordered| {
        assert next[..i] == ordered[..i];
        assert p in ordered[..i];
      } else {
        assert next[..i] == ordered;
        assert p in Elements(ordered);
      }
    }
  }

  lemma CloseHarness(r: HarnessRegistry, g: Graph, ordered: seq<Node>, first: set<Node>, visited: set<Node>,
                     visiting: set<Node>, stack: seq<Node>, id: Node)
    requires SearchState(r, g, ordered, visited, visiting + {id}, stack + [id])
    requires OpenPart(g, first, visiting, stack) && id !in visiting && id in g && Usable(r, id)
    requires (forall p :: Edge(g, id, p) ==> p in visited) && Grown(g, id, first, visited)
    ensures SearchState(r, g, ordered + [id], visited + {id}, visiting, stack)
    ensures Grown(g, id, first, visited + {id})
  {
    assert id in visiting + {id};
    FinishHarness(r, g, ordered, visited, id);
    forall v | v in visiting ensures v !in visited + {id} { assert v in visiting + {id}; }
  }

  /** Coming back to an open harness closes a cycle. */
  lemma BackToOpen(g: Graph, visited: set<Node>, visiting: set<Node>, stack: seq<Node>, id: Node)
    requires OpenPart(g, visited, visiting, stack) && id in visiting && Edge(g, stack[|stack| - 1], id)
    ensures OnCycle(g, id)
  {
    var k :| 0 <= k < |stack| && stack[k] == id;
    SubWalk(g, stack, k, |stack| - 1);
    ExtendWalk(g, stack[k..|stack| - 1 + 1], id, stack[|stack| - 1], id);
  }

  lemma NeededThrough(g: Graph, u: Node, p: Node, v: Node)
    requires Edge(g, u, p) && Needed(g, p, v)
    ensures Needed(g, u, v)
  {
    if v == p {
      ReachesEdge(g, u, p);
    } else {
      EdgeThenReaches(g, u, p, v);
      PlusReaches(g, u, v);
    }
  }

  lemma RefutedThrough(r: HarnessRegistry, g: Graph, u: Node, p: Node, error: Outcome)
    requires Edge(g, u, p) && Refuted(r, g, p, error)
    ensures Refuted(r, g, u, error)
  {
    NeededThrough(g, u, p, error.id);
  }

  /** The checks before a harness is opened, and its prerequisites. */
  method CheckHarness(r: HarnessRegistry, id: Node) returns (outcome: Outcome, prereqs: seq<Node>)
    ensures var g := PrerequisiteGraph(r.harnesses);
            if outcome.Visited? then Usable(r, id) && id in g && prereqs == g[id] else Refuted(r, g, id, outcome)
  {
    var found := GetHarness(r.harnesses, id);
    if found.NoHarness? {
      return UnknownHarness(id), [];
    }
    if found.harness.status != Implemented {
      return NotImplemented(id), [];
    }
    if found.harness.prerequisites.Missing? && r.schema != Schema100 {
      return InvalidPrerequisites(id), [];
    }
    outcome, prereqs := Visited, Targets(found.harness.prerequisites);
  }

  class ClosureSearch {
    const registry: HarnessRegistry
    ghost const graph: Graph
    var ordered: seq<Node>
    var visiting: set<Node>
    var visited: set<Node>
    ghost var stack: seq<Node>

    constructor (r: HarnessRegistry)
      ensures Valid() && registry == r && visited == {} && visiting == {} && ordered == [] && stack == []
    {
      registry, graph := r, PrerequisiteGraph(r.harnesses);
      ordered, visiting, visited, stack := [], {}, {}, [];
    }

    ghost predicate Valid()
      reads this
    {
      && graph == PrerequisiteGraph(registry.harnesses)
      && SearchState(registry, graph, ordered, visited, visiting, stack)
    }

    method Visit(id: Node) returns (outcome: Outcome)
      requires Valid() && MayVisit(graph, stack, id)
      modifies this
      ensures outcome.Visited? ==> Valid() && stack == old(stack) && visiting == old(visiting)
      ensures outcome.Visited? ==> id in visited && Grown(graph, id, old(visited), visited)
      ensures outcome.Visited? ==> Adds(graph, id, visiting, old(ordered), ordered)
      ensures outcome.Visited? && id !in old(visited) ==> ordered != [] && ordered[|ordered| - 1] == id
      ensures !outcome.Visited? ==> Refuted(registry, graph, id, outcome)
      decreases graph.Keys - visiting, 1
    {
      if id in visited {
        AddsNothing(graph, id, visiting, ordered);
        return Visited;
      }
      if id in visiting {
        BackToOpen(graph, visited, visiting, stack, id);
        return CycleAt(id);
      }
      var prereqs;
      outcome, prereqs := CheckHarness(registry, id);
      if outcome.Visited? {
        outcome := VisitUsable(id, prereqs);
      }
    }

    /** The visit of a usable harness met for the first time. */
    method VisitUsable(id: Node, prereqs: seq<Node>) returns (outcome: Outcome)
      requires Valid() && MayVisit(graph, stack, id) && id !in visited && id !in visiting
      requires Usable(registry, id) && id in graph && prereqs == graph[id]
      modifies this
      ensures outcome.Visited? ==> Valid() && stack == old(stack) && visiting == old(visiting)
      ensures outcome.Visited? ==> id in visited && Grown(graph, id, old(visited), visited)
      ensures outcome.Visited? ==> Adds(graph, id, visiting, old(ordered), ordered)
      ensures outcome.Visited? ==> ordered != [] && ordered[|ordered| - 1] == id
      ensures !outcome.Visited? ==> Refuted(registry, graph, id, outcome)
      decreases graph.Keys - visiting, 0
    {
      OpenHarness(registry, graph, ordered, visited, visiting, stack, id);
      visiting := visiting + {id};
      stack := stack + [id];
      outcome := VisitPrerequisites(id, prereqs);
      if outcome.Visited? {
        ThroughAll(graph, id, visiting, old(visited), visited, old(ordered), ordered);
        CloseHarness(registry, graph, ordered, old(visited), visited, old(visiting), old(stack), id);
        AddsNode(graph, id, old(visiting), old(ordered), ordered);
        visiting := visiting - {id};
        visited := visited + {id};
        ordered := ordered + [id];
        stack := old(stack);
      }
    }

    /** Visit every prerequisite of an open harness. */
    method VisitPrerequisites(id: Node, prereqs: seq<Node>) returns (outcome: Outcome)
      requires Valid() && stack != [] && stack[|stack| - 1] == id && id in graph && prereqs == graph[id]
      modifies this
      ensures outcome.Visited? ==> Valid() && stack == old(stack) && visiting == old(visiting)
      ensures outcome.Visited? ==> Through(graph, id, prereqs, |prereqs|, visiting, old(visited), visited, old(ordered), ordered)
      ensures !outcome.Visited? ==> Refuted(registry, graph, id, outcome)
      decreases graph.Keys - visiting, 2
    {
      ThroughNone(graph, id, prereqs, visiting, visited, ordered);
      for i := 0 to |prereqs|
        invariant Valid() && stack == old(stack) && visiting == old(visiting)
        invariant Through(graph, id, prereqs, i, visiting, old(visited), visited, old(ordered), ordered)
      {
        assert Edge(graph, id, prereqs[i]);
        ghost var before, middle := visited, ordered;
        outcome := Visit(prereqs[i]);
        if !outcome.Visited? {
          RefutedThrough(registry, graph, id, prereqs[i], outcome);
          return;
        }
        ThroughNext(graph, id, prereqs, i, visiting, old(visited), before, visited, old(ordered), middle, ordered);
      }
      outcome := Visited;
    }
  }

  /** The first `i` prerequisites have been visited: what that has finished, and in which order. */
  ghost predicate Through(g: Graph, id: Node, prereqs: seq<Node>, i: nat, open: set<Node>, first: set<Node>, visited: set<Node>,
                          before: seq<Node>, ordered: seq<Node>) {
    && i <= |prereqs| && Grown(g, id, first, visited) && AddsAll(g, prereqs[..i], open, before, ordered)
    && forall k :: 0 <= k < i ==> prereqs[k] in visited
  }

  lemma ThroughNone(g: Graph, id: Node, prereqs: seq<Node>, open: set<Node>, visited: set<Node>, ordered: seq<Node>)
    ensures Through(g, id, prereqs, 0, open, visited, visited, ordered, ordered)
  {
    AddsNone(g, open, ordered);
  }

  lemma ThroughNext(g: Graph, id: Node, prereqs: seq<Node>, i: nat, open: set<Node>, first: set<Node>, visited: set<Node>, visited': set<Node>,
                    before: seq<Node>, middle: seq<Node>, ordered: seq<Node>)
    requires i < |prereqs| && Edge(g, id, prereqs[i]) && Through(g, id, prereqs, i, open, first, visited, before, middle)
    requires Grown(g, prereqs[i], visited, visited') && prereqs[i] in visited' && Adds(g, prereqs[i], open, middle, ordered)
    ensures Through(g, id, prereqs, i + 1, open, first, visited', before, ordered)
  {
    GrownThrough(g, id, prereqs[i], first, visited, visited');
    AddsNext(g, prereqs, i, open, before, middle, ordered);
  }

  lemma ThroughAll(g: Graph, id: Node, open: set<Node>, first: set<Node>, visited: set<Node>, before: seq<Node>, ordered: seq<Node>)
    requires id in g && Through(g, id, g[id], |g[id]|, open, first, visited, before, ordered)
    ensures Grown(g, id, first, visited) && AddsAll(g, g[id], open, before, ordered) && forall p :: Edge(g, id, p) ==> p in visited
  {
    assert g[id][..|g[id]|] == g[id];
    forall p | p in g[id] ensures p in visited {
      var k :| 0 <= k < |g[id]| && g[id][k] == p;
    }
  }

  /** The harnesses needed by a target can be closed exactly if all are usable and none is on a cycle. */
  ghost predicate Closable(r: HarnessRegistry, target: Node) {
    forall v :: Needed(PrerequisiteGraph(r.harnesses), target, v) ==>
                  Usable(r, v) && !OnCycle(PrerequisiteGraph(r.harnesses), v)
  }

  /** Exactly the needed harnesses, each once, prerequisites first, the target last. */
  ghost predicate IsClosure(g: Graph, target: Node, ordered: seq<Node>) {
    && Distinct(ordered) && (forall v :: v in ordered <==> Needed(g, target, v))
    && PrerequisitesFirst(g, ordered)
    && ordered != [] && ordered[|ordered| - 1] == target
  }

  lemma FinishedIsClosable(r: HarnessRegistry, target: Node, ordered: seq<Node>, visited: set<Node>)
    requires FinishedPart(r, PrerequisiteGraph(r.harnesses), ordered, visited)
    requires target in visited && forall v :: v in visited ==> Needed(PrerequisiteGraph(r.harnesses), target, v)
    ensures Closable(r, target)
    ensures forall v :: v in ordered <==> Needed(PrerequisiteGraph(r.harnesses), target, v)
  {
    var g := PrerequisiteGraph(r.harnesses);
    forall v | Needed(g, target, v) ensures v in visited {
      if v != target { ClosedContainsReachable(g, visited, target, v); }
    }
    assert forall v :: v in ordered <==> v in visited;
  }

  lemma MergeFromNothing(g: Graph, target: Node, ordered: seq<Node>)
    requires Adds(g, target, {}, [], ordered)
    ensures ordered == ClosureOf(g, target, {})
  {
    ClosureDistinct(g, target, {});
    MergeOnto([], ClosureOf(g, target, {}));
  }

  /** Succeeds exactly on closable targets; an error names a needed harness that prevents the closure. */
  method DependencyClosure(r: HarnessRegistry, target: Node) returns (outcome: Outcome, ordered: seq<Node>)
    ensures outcome.Visited? <==> Closable(r, target)
    ensures outcome.Visited? ==> IsClosure(PrerequisiteGraph(r.harnesses), target, ordered)
    ensures outcome.Visited? ==> ordered == ClosureOf(PrerequisiteGraph(r.harnesses), target, {})
    ensures !outcome.Visited? ==> Refuted(r, PrerequisiteGraph(r.harnesses), target, outcome)
  {
    var search := new ClosureSearch(r);
    outcome := search.Visit(target);
    ordered := search.ordered;
    if outcome.Visited? {
      FinishedIsClosable(r, target, ordered, search.visited);
      MergeFromNothing(PrerequisiteGraph(r.harnesses), target, ordered);
    } else {
      RefutedNotClosable(r, target, outcome);
    }
  }

  lemma RefutedNotClosable(r: HarnessRegistry, target: Node, error: Outcome)
    requires Refuted(r, PrerequisiteGraph(r.harnesses), target, error)
    ensures !Closable(r, target)
  {
    assert Needed(PrerequisiteGraph(r.harnesses), target, error.id);
  }

  lemma AcceptedEntry(r: HarnessRegistry, v: Node)
    requires Accepted(r)
    ensures var found := GetHarness(r.harnesses, v);
            found.Found? ==> !OnCycle(PrerequisiteGraph(r.harnesses), v) &&
                             (found.harness.prerequisites.Listed? || r.schema == Schema100)
  {
    var found := GetHarness(r.harnesses, v);
    if found.Found? {
      var k :| 0 <= k < |r.harnesses| && r.harnesses[k] == found.harness;
      assert LegalEntry(r.schema, r.harnesses[k], HarnessIds(r.harnesses));
      assert v in PrerequisiteGraph(r.harnesses);
    }
  }

  /** In an accepted registry only an unknown target or an unimplemented harness stops the closure: never a cycle. */
  lemma AcceptedNeverCycles(r: HarnessRegistry, target: Node, error: Outcome)
    requires Accepted(r) && Refuted(r, PrerequisiteGraph(r.harnesses), target, error)
    ensures if target in HarnessIds(r.harnesses) then error.NotImplemented? else error == UnknownHarness(target)
  {
    var g := PrerequisiteGraph(r.harnesses);
    LegalEntriesGraph(r);
    if Reaches(g, target, error.id) {
      var p :| Walk(g, p, target, error.id);
      WalkNodes(g, p);
      assert p[0] in g && p[|p| - 1] in g;
    }
    AcceptedEntry(r, error.id);
  }

  /** In an accepted registry a known target has a closure exactly if every needed harness is implemented. */
  lemma AcceptedClosable(r: HarnessRegistry, target: Node)
    requires Accepted(r) && target in HarnessIds(r.harnesses)
    ensures Closable(r, target) <==>
            forall v :: Needed(PrerequisiteGraph(r.harnesses), target, v) ==>
                          GetHarness(r.harnesses, v).Found? && GetHarness(r.harnesses, v).harness.status == Implemented
  {
    var g := PrerequisiteGraph(r.harnesses);
    forall v {:trigger Needed(g, target, v)}
      ensures Usable(r, v) && !OnCycle(g, v) <==>
              GetHarness(r.harnesses, v).Found? && GetHarness(r.harnesses, v).harness.status == Implemented
    {
      AcceptedEntry(r, v);
    }
  }
}
