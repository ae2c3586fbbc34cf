/** The order of a dependency closure: the closures of the prerequisites one after another, without repetition, then the harness. */
module ClosureOrder {
  import opened Ordering
  import opened Digraph

  /** `a` followed by what `b` adds to it. */
  function Merge(a: seq<Node>, b: seq<Node>): seq<Node> {
    if b == [] then a
    else
      var before, last := Merge(a, b[..|b| - 1]), b[|b| - 1];
      if last in before then before else before + [last]
  }

  /** The closure of one harness, stopping at harnesses that are open. */
  ghost function ClosureOf(g: Graph, id: Node, open: set<Node>): seq<Node>
    decreases g.Keys - open, 0, 0
  {
    if id !in g || id in open then [] else ClosureAll(g, g[id], open + {id}) + [id]
  }

  ghost function ClosureAll(g: Graph, ids: seq<Node>, open: set<Node>): seq<Node>
    decreases g.Keys - open, 1, |ids|
  {
    if ids == [] then [] else Merge(ClosureAll(g, ids[..|ids| - 1], open), ClosureOf(g, ids[|ids| - 1], open))
  }

  lemma {:induction false} MergeMembers(a: seq<Node>, b: seq<Node>)
    ensures forall x :: x in Merge(a, b) <==> x in a || x in b
  {
    if b != [] {
      MergeMembers(a, b[..|b| - 1]);
      assert b == b[..|b| - 1] + [b[|b| - 1]];
    }
  }

  lemma MergeLast(a: seq<Node>, b: seq<Node>, x: Node)
    ensures Merge(a, b + [x]) == if x in Merge(a, b) then Merge(a, b) else Merge(a, b) + [x]
  {
    assert (b + [x])[..|b|] == b;
  }

  lemma {:induction false} MergeAssociates(a: seq<Node>, b: seq<Node>, c: seq<Node>)
    ensures Merge(Merge(a, b), c) == Merge(a, Merge(b, c))
  {
    if c != [] {
      var d, x := c[..|c| - 1], c[|c| - 1];
      MergeAssociates(a, b, d);
      MergeMembers(a, Merge(b, d));
      if x !in Merge(b, d) { MergeLast(a, Merge(b, d), x); }
    }
  }

  lemma {:induction false} MergeNothing(a: seq<Node>, b: seq<Node>)
    requires forall x :: x in b ==> x in a
    ensures Merge(a, b) == a
  {
    if b != [] {
      assert b == b[..|b| - 1] + [b[|b| - 1]];
      MergeNothing(a, b[..|b| - 1]);
    }
  }

  /** A closure stays inside every closed set that has its harness. */
  lemma {:induction false} ClosureInside(g: Graph, s: set<Node>, id: Node, open: set<Node>)
    requires ClosedUnder(g, s) && id in s
    ensures forall x :: x in ClosureOf(g, id, open) ==> x in s
    decreases g.Keys - open, 0, 0
  {
    if id in g && id !in open {
      assert forall p :: p in g[id] ==> Edge(g, id, p);
      ClosureAllInside(g, s, g[id], open + {id});
    }
  }

  lemma {:induction false} ClosureAllInside(g: Graph, s: set<Node>, ids: seq<Node>, open: set<Node>)
    requires ClosedUnder(g, s) && forall p :: p in ids ==> p in s
    ensures forall x :: x in ClosureAll(g, ids, open) ==> x in s
    decreases g.Keys - open, 1, |ids|
  {
    if ids != [] {
      var rest, last: Node := ids[..|ids| - 1], ids[|ids| - 1];
      assert last in ids && forall p :: p in rest ==> p in ids;
      ClosureAllInside(g, s, rest, open);
      ClosureInside(g, s, last, open);
      MergeMembers(ClosureAll(g, rest, open), ClosureOf(g, last, open));
    }
  }

  lemma {:induction false} MergeDistinct(a: seq<Node>, b: seq<Node>)
    requires Distinct(a)
    ensures Distinct(Merge(a, b))
  {
    if b != [] {
      MergeDistinct(a, b[..|b| - 1]);
    }
  }

  lemma {:induction false} MergeOnto(a: seq<Node>, b: seq<Node>)
    requires Distinct(b) && forall x :: x in a ==> x !in b
    ensures Merge(a, b) == a + b
  {
    if b != [] {
      var rest, last := b[..|b| - 1], b[|b| - 1];
      assert b == rest + [last] && last in b && last !in rest;
      MergeOnto(a, rest);
    }
  }

  lemma {:induction false} ClosureAllDistinct(g: Graph, ids: seq<Node>, open: set<Node>)
    ensures Distinct(ClosureAll(g, ids, open))
    decreases |ids|
  {
    if ids != [] {
      ClosureAllDistinct(g, ids[..|ids| - 1], open);
      MergeDistinct(ClosureAll(g, ids[..|ids| - 1], open), ClosureOf(g, ids[|ids| - 1], open));
    }
  }

  lemma {:induction false} ClosureAvoidsOpen(g: Graph, id: Node, open: set<Node>)
    ensures forall x :: x in ClosureOf(g, id, open) ==> x !in open
    decreases g.Keys - open, 0, 0
  {
    if id in g && id !in open {
      ClosureAllAvoidsOpen(g, g[id], open + {id});
    }
  }

  lemma {:induction false} ClosureAllAvoidsOpen(g: Graph, ids: seq<Node>, open: set<Node>)
    ensures forall x :: x in ClosureAll(g, ids, open) ==> x !in open
    decreases g.Keys - open, 1, |ids|
  {
    if ids != [] {
      ClosureAllAvoidsOpen(g, ids[..|ids| - 1], open);
      ClosureAvoidsOpen(g, ids[|ids| - 1], open);
      MergeMembers(ClosureAll(g, ids[..|ids| - 1], open), ClosureOf(g, ids[|ids| - 1], open));
    }
  }

  /** A closure lists no harness twice. */
  lemma ClosureDistinct(g: Graph, id: Node, open: set<Node>)
    ensures Distinct(ClosureOf(g, id, open))
  {
    if id in g && id !in open {
      ClosureAllDistinct(g, g[id], open + {id});
      ClosureAllAvoidsOpen(g, g[id], open + {id});
    }
  }

  // ----- What a search adds -----

  /** The visit of `id` has added its closure. */
  ghost predicate Adds(g: Graph, id: Node, open: set<Node>, before: seq<Node>, after: seq<Node>) {
    after == Merge(before, ClosureOf(g, id, open))
  }

  ghost predicate AddsAll(g: Graph, ids: seq<Node>, open: set<Node>, before: seq<Node>, after: seq<Node>) {
    after == Merge(before, ClosureAll(g, ids, open))
  }

  lemma AddsNothing(g: Graph, id: Node, open: set<Node>, done: seq<Node>)
    requires ClosedUnder(g, Elements(done)) && id in done
    ensures Adds(g, id, open, done, done)
  {
    ClosureInside(g, Elements(done), id, open);
    MergeNothing(done, ClosureOf(g, id, open));
  }

  lemma AddsNone(g: Graph, open: set<Node>, done: seq<Node>)
    ensures AddsAll(g, [], open, done, done)
  {
  }

  lemma AddsNext(g: Graph, ids: seq<Node>, i: nat, open: set<Node>, before: seq<Node>, middle: seq<Node>, after: seq<Node>)
    requires i < |ids| && AddsAll(g, ids[..i], open, before, middle) && Adds(g, ids[i], open, middle, after)
    ensures AddsAll(g, ids[..i + 1], open, before, after)
  {
    assert ids[..i + 1][..i] == ids[..i];
    MergeAssociates(before, ClosureAll(g, ids[..i], open), ClosureOf(g, ids[i], open));
  }

  lemma AddsNode(g: Graph, id: Node, open: set<Node>, before: seq<Node>, middle: seq<Node>)
    requires id in g && id !in open && id !in middle && AddsAll(g, g[id], open + {id}, before, middle)
    ensures Adds(g, id, open, before, middle + [id])
  {
    MergeLast(before, ClosureAll(g, g[id], open + {id}), id);
  }
}
