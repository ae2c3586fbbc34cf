/** Tarjan's algorithm: the components it emits are exactly the strongly connected components. */
module Tarjan {
  import opened Ordering
  import opened Digraph

  // ----- Reachability as an abstract relation -----

  type Relation = set<(Node, Node)>

  ghost predicate Chained(r: Relation, u: Node, v: Node, w: Node) {
    (u, v) in r && (v, w) in r
  }

  ghost predicate Confined(g: Graph, r: Relation, s: set<Node>, u: Node, v: Node) {
    ClosedUnder(g, s) && u in s && (u, v) in r
  }

  /** The least preorder on the nodes that contains every edge. */
  ghost predicate IsReachability(g: Graph, r: Relation) {
    && (forall u :: u in g ==> (u, u) in r)
    && (forall u, v, w {:trigger Chained(r, u, v, w)} :: Chained(r, u, v, w) ==> (u, w) in r)
    && (forall u, v :: Edge(g, u, v) ==> (u, v) in r)
    && (forall s, u, v {:trigger Confined(g, r, s, u, v)} :: Confined(g, r, s, u, v) ==> v in s)
  }

  ghost function ReachRelation(g: Graph): Relation {
    set u, v | u in g && v in g && Reaches(g, u, v) :: (u, v)
  }

  lemma ReachRelationIsReachability(g: Graph)
    requires WellFormed(g)
    ensures IsReachability(g, ReachRelation(g))
  {
    var r := ReachRelation(g);
    forall u | u in g ensures (u, u) in r { ReachesSelf(g, u); }
    forall u, v, w | Chained(r, u, v, w) ensures (u, w) in r { ReachesTransitive(g, u, v, w); }
    forall u, v | Edge(g, u, v) ensures (u, v) in r { ReachesEdge(g, u, v); }
    forall s, u, v | Confined(g, r, s, u, v) ensures v in s {
      ClosedContainsReachable(g, s, u, v);
    }
  }

  /** A maximal set of mutually related nodes. */
  ghost predicate IsClass(g: Graph, r: Relation, c: seq<Node>) {
    && c != [] && (forall u :: u in c ==> u in g)
    && forall u, v :: u in c && v in g ==> (v in c <==> (u, v) in r && (v, u) in r)
  }

  // ----- The traversal -----

  /** The traversal at one moment: stack, visit numbers, nodes being visited, nodes in emitted components. */
  datatype Snapshot = Snapshot(stack: seq<Node>, num: map<Node, nat>, next: nat, gray: set<Node>, done: set<Node>)

  /** Some node being visited is reachable from `x` and was visited no later. */
  ghost predicate Grounded(r: Relation, s: Snapshot, x: Node)
    requires s.gray <= s.num.Keys && x in s.num
  {
    exists z :: z in s.gray && s.num[z] <= s.num[x] && (x, z) in r
  }

  ghost predicate Numbered(g: Graph, s: Snapshot) {
    && s.num.Keys <= g.Keys
    && s.gray <= s.num.Keys
    && (forall z :: z in s.gray ==> z in s.stack)
    && (forall n :: n in s.num <==> n in s.stack || n in s.done)
    && (forall i :: 0 <= i < |s.stack| ==> s.stack[i] in s.num)
    && (forall n :: n in s.stack ==> n !in s.done)
    && (forall n :: n in s.num ==> s.num[n] < s.next)
  }

  /** The visit number at height `i` of the stack. */
  ghost function NumAt(s: Snapshot, i: int): int {
    if 0 <= i < |s.stack| && s.stack[i] in s.num then s.num[s.stack[i]] else -1
  }

  /** The stack is ordered by visit number. */
  ghost predicate Stacked(s: Snapshot) {
    forall i, j :: 0 <= i < j < |s.stack| ==> NumAt(s, i) < NumAt(s, j)
  }

  /** Nodes no longer being visited have all their successors numbered. */
  ghost predicate BlackClosed(g: Graph, s: Snapshot) {
    forall u, v :: u in s.num && u !in s.gray && Edge(g, u, v) ==> v in s.num
  }

  /** A node being visited reaches everything stacked after it. */
  ghost predicate GrayReaches(r: Relation, s: Snapshot)
    requires s.gray <= s.num.Keys && forall n :: n in s.stack ==> n in s.num
  {
    forall y, x {:trigger (y, x) in r} :: y in s.gray && x in s.stack && s.num[y] <= s.num[x] ==> (y, x) in r
  }

  ghost predicate Invariant(g: Graph, r: Relation, s: Snapshot) {
    && Numbered(g, s)
    && Stacked(s)
    && ClosedUnder(g, s.done)
    && BlackClosed(g, s)
    && GrayReaches(r, s)
    && (forall x {:trigger Grounded(r, s, x)} :: x in s.stack ==> Grounded(r, s, x))
  }

  /** `t` continues `s`: nothing already recorded changes, new numbers are larger. */
  ghost predicate Continues(s: Snapshot, t: Snapshot) {
    && |s.stack| <= |t.stack| && t.stack[..|s.stack|] == s.stack
    && s.next <= t.next
    && t.gray == s.gray
    && s.done <= t.done
    && (forall x :: x in s.num ==> x in t.num && t.num[x] == s.num[x])
    && (forall x :: x in t.num && x !in s.num ==> t.num[x] >= s.next)
  }

  ghost function Entered(s: Snapshot, x: Node): Snapshot {
    Snapshot(s.stack + [x], s.num[x := s.next], s.next + 1, s.gray + {x}, s.done)
  }

  /** The snapshot after the visit of `x` keeps `x` on the stack. */
  ghost function Left(t: Snapshot, x: Node): Snapshot {
    t.(gray := t.gray - {x})
  }

  /** The snapshot after everything above height `h` was popped as one component. */
  ghost function Popped(t: Snapshot, h: nat, x: Node): Snapshot
    requires h <= |t.stack|
  {
    Snapshot(t.stack[..h], t.num, t.next, t.gray - {x}, t.done + Elements(t.stack[h..]))
  }

  /** Edges from the stack above height `h` to the stack below it lead to numbers of at least `low`. */
  ghost predicate Bounds(g: Graph, t: Snapshot, h: nat, low: int)
    requires forall i :: 0 <= i < |t.stack| ==> t.stack[i] in t.num
  {
    forall i, j {:trigger Edge(g, t.stack[j], t.stack[i])} ::
      0 <= i < h <= j < |t.stack| && Edge(g, t.stack[j], t.stack[i]) ==> low <= t.num[t.stack[i]]
  }

  /** The low link of `x` is the number of a node on the stack that `x` reaches. */
  ghost predicate Witnessed(r: Relation, t: Snapshot, x: Node, low: int)
    requires forall n :: n in t.stack ==> n in t.num
  {
    exists w :: w in t.stack && t.num[w] == low && (x, w) in r
  }

  /** What a finished visit of `x` leaves behind: either `x` was popped with its component, or it waits above `s`. */
  ghost predicate Visited(g: Graph, r: Relation, s: Snapshot, t: Snapshot, x: Node, low: int) {
    && Invariant(g, r, t) && Continues(s, t) && x in t.num && x !in s.num
    && if t.stack == s.stack then low == t.num[x] && x in t.done
       else |s.stack| < |t.stack| && x == t.stack[|s.stack|] && low < t.num[x] &&
            Witnessed(r, t, x, low) && Bounds(g, t, |s.stack|, low)
  }

  /** The state inside the visit of `x`, with the targets in `seen` processed. */
  ghost predicate Visiting(g: Graph, r: Relation, s: Snapshot, t: Snapshot, x: Node, low: int, seen: seq<Node>) {
    && Numbered(g, s) && Invariant(g, r, t) && x in g && x !in s.num
    && Continues(Entered(s, x), t)
    && low <= t.num[x] && Witnessed(r, t, x, low)
    && Bounds(g, t, |s.stack| + 1, low)
    && (forall v :: v in seen ==> v in t.num)
    && (forall v :: v in seen && v in s.stack ==> low <= t.num[v])
  }

  // ----- Entering a node -----

  lemma EnterStack(g: Graph, s: Snapshot, x: Node)
    requires Numbered(g, s) && Stacked(s) && x in g && x !in s.num
    ensures Numbered(g, Entered(s, x)) && Stacked(Entered(s, x))
  {
    var t := Entered(s, x);
    assert forall n :: n in t.stack <==> n in s.stack || n == x;
    forall i | 0 <= i < |s.stack| ensures NumAt(t, i) == NumAt(s, i) < s.next {
      var n: Node := s.stack[i];
      assert n in s.stack && n in s.num && s.num[n] < s.next;
    }
    assert NumAt(t, |s.stack|) == s.next;
  }

  /** Being ordered by number is inherited by every lower part of the stack. */
  lemma StackedPart(s: Snapshot, t: Snapshot)
    requires Stacked(s) && t.num == s.num && |t.stack| <= |s.stack| && t.stack == s.stack[..|t.stack|]
    ensures Stacked(t)
  {
    assert forall i :: 0 <= i < |t.stack| ==> NumAt(t, i) == NumAt(s, i);
  }

  lemma StackedDistinct(g: Graph, s: Snapshot)
    requires Numbered(g, s) && Stacked(s)
    ensures Distinct(s.stack)
  {
    forall i, j | 0 <= i < j < |s.stack| ensures s.stack[i] != s.stack[j] {
      assert NumAt(s, i) < NumAt(s, j);
    }
  }

  lemma EnterGrounded(g: Graph, r: Relation, s: Snapshot, x: Node, n: Node)
    requires (x, x) in r && Invariant(g, r, s) && x !in s.num && n in s.stack + [x]
    ensures Entered(s, x).gray <= Entered(s, x).num.Keys && n in Entered(s, x).num
    ensures Grounded(r, Entered(s, x), n)
  {
    var t := Entered(s, x);
    if n == x {
      assert x in t.gray;
    } else {
      assert Grounded(r, s, n);
      var z :| z in s.gray && s.num[z] <= s.num[n] && (n, z) in r;
      assert z in t.gray && t.num[z] <= t.num[n];
    }
  }

  lemma EnterGray(g: Graph, r: Relation, s: Snapshot, x: Node)
    requires Numbered(g, s) && GrayReaches(r, s) && x !in s.num
    requires (x, x) in r && forall y :: y in s.gray ==> (y, x) in r
    ensures Entered(s, x).gray <= Entered(s, x).num.Keys && forall n :: n in Entered(s, x).stack ==> n in Entered(s, x).num
    ensures GrayReaches(r, Entered(s, x))
  {
    var t := Entered(s, x);
    assert forall n :: n in t.stack <==> n in s.stack || n == x;
    forall y, n | y in t.gray && n in t.stack && t.num[y] <= t.num[n] ensures (y, n) in r {
      if n != x {
        assert y != x;
      }
    }
  }

  lemma Enter(g: Graph, r: Relation, s: Snapshot, x: Node)
    requires (x, x) in r
    requires Invariant(g, r, s) && x in g && x !in s.num
    requires forall y :: y in s.gray ==> (y, x) in r
    ensures Visiting(g, r, s, Entered(s, x), x, s.next, [])
  {
    EnterStack(g, s, x);
    var t := Entered(s, x);
    assert forall n :: n in t.stack <==> n in s.stack || n == x;
    forall n | n in t.stack ensures Grounded(r, t, n) {
      EnterGrounded(g, r, s, x, n);
    }
    EnterGray(g, r, s, x);
  }

  // ----- Processing one target -----

  lemma SeeNumbered(g: Graph, r: Relation, s: Snapshot, t: Snapshot, x: Node, low: int, seen: seq<Node>, v: Node)
    requires Visiting(g, r, s, t, x, low, seen) && v in t.num
    requires v in t.stack ==> low <= t.num[v]
    ensures Visiting(g, r, s, t, x, low, seen + [v])
  {
    assert forall n :: n in s.stack ==> n in Entered(s, x).stack;
    assert t.stack[..|s.stack| + 1] == s.stack + [x];
    forall n | n in s.stack ensures n in t.stack {
      var i :| 0 <= i < |s.stack| && s.stack[i] == n;
      assert t.stack[..|s.stack| + 1][i] == n;
    }
  }

  /** A stacked successor lowers the low link to its number. */
  lemma SeeStacked(g: Graph, r: Relation, s: Snapshot, t: Snapshot, x: Node, low: int, seen: seq<Node>, v: Node)
    requires (x, v) in r && v in t.stack
    requires Visiting(g, r, s, t, x, low, seen)
    ensures Visiting(g, r, s, t, x, if t.num[v] < low then t.num[v] else low, seen + [v])
  {
    var least := if t.num[v] < low then t.num[v] else low;
    assert Witnessed(r, t, x, least);
    assert Visiting(g, r, s, t, x, least, seen);
    SeeNumbered(g, r, s, t, x, least, seen, v);
  }

  lemma Compose(g: Graph, r: Relation, u: Node, v: Node, w: Node)
    requires IsReachability(g, r) && (u, v) in r && (v, w) in r
    ensures (u, w) in r
  {
    assert Chained(r, u, v, w);
  }

  /** Continuing from the entered node keeps the older stack, and `x` itself, in place. */
  lemma StackKept(s: Snapshot, t: Snapshot, x: Node)
    requires Continues(Entered(s, x), t)
    ensures |s.stack| < |t.stack| && t.stack[|s.stack|] == x && x in t.stack
    ensures t.stack[..|s.stack|] == s.stack
    ensures forall i :: 0 <= i < |s.stack| ==> t.stack[i] == s.stack[i]
    ensures forall n :: n in s.stack ==> n in t.stack
  {
    var h := |s.stack|;
    assert t.stack[..h + 1] == s.stack + [x];
    assert t.stack[h] == t.stack[..h + 1][h];
    assert forall i :: 0 <= i < h ==> t.stack[i] == t.stack[..h + 1][i];
  }

  lemma ContinuesTransitive(s: Snapshot, t: Snapshot, u: Snapshot)
    requires Continues(s, t) && Continues(t, u)
    ensures Continues(s, u)
  {
    assert u.stack[..|s.stack|] == u.stack[..|t.stack|][..|s.stack|];
  }

  lemma ReturnBounds(g: Graph, r: Relation, t: Snapshot, t': Snapshot, v: Node, h: nat, low: int, low': int)
    requires Invariant(g, r, t) && h <= |t.stack| && Bounds(g, t, h, low)
    requires Visited(g, r, t, t', v, low')
    ensures Bounds(g, t', h, if low' < low then low' else low)
  {
    assert forall i :: 0 <= i < |t.stack| ==> t'.stack[i] == t'.stack[..|t.stack|][i];
  }

  /** A recursive visit of the successor `v` has returned; the caller takes the smaller low link. */
  lemma Return(g: Graph, r: Relation, s: Snapshot, t: Snapshot, t': Snapshot, x: Node, low: int, seen: seq<Node>, v: Node, low': int)
    requires Visiting(g, r, s, t, x, low, seen) && (x, v) in r
    requires forall w :: (v, w) in r ==> (x, w) in r
    requires Visited(g, r, t, t', v, low')
    ensures Visiting(g, r, s, t', x, if low' < low then low' else low, seen + [v])
  {
    StackKept(s, t, x);
    ContinuesTransitive(Entered(s, x), t, t');
    StackKept(s, t', x);
    ReturnBounds(g, r, t, t', v, |s.stack| + 1, low, low');
    var least := if low' < low then low' else low;
    assert Witnessed(r, t', x, least) by {
      if low' < low {
        assert t'.stack != t.stack;
      } else {
        var w :| w in t.stack && t.num[w] == low && (x, w) in r;
        var i :| 0 <= i < |t.stack| && t.stack[i] == w;
        assert t'.stack[..|t.stack|][i] == w;
      }
    }
  }

  // ----- Leaving a node -----

  /** Every target of `x` has been processed. */
  ghost predicate Explored(g: Graph, r: Relation, s: Snapshot, t: Snapshot, x: Node, low: int) {
    x in g && Visiting(g, r, s, t, x, low, g[x])
  }

  /** On a stack ordered by number, height and number agree. */
  lemma HeightIsNumber(t: Snapshot, h: nat, n: Node)
    requires (forall i :: 0 <= i < |t.stack| ==> t.stack[i] in t.num) && Stacked(t)
    requires h < |t.stack| && n in t.stack
    ensures n in t.num
    ensures n in t.stack[..h] <==> t.num[n] < t.num[t.stack[h]]
    ensures n in t.stack[h..] <==> t.num[n] >= t.num[t.stack[h]]
  {
    var i :| 0 <= i < |t.stack| && t.stack[i] == n;
    assert NumAt(t, i) == t.num[n] && NumAt(t, h) == t.num[t.stack[h]];
    forall k | 0 <= k < |t.stack| && t.stack[k] == n ensures k == i {
      assert NumAt(t, k) == NumAt(t, i);
    }
    if i < h {
      assert t.stack[..h][i] == n;
    } else {
      assert t.stack[h..][i - h] == n;
    }
  }

  /** The number of `x` separates the older stack from the part above it. */
  lemma StackSplit(g: Graph, s: Snapshot, t: Snapshot, x: Node)
    requires Numbered(g, s) && Numbered(g, t) && Stacked(t) && x !in s.num
    requires Continues(Entered(s, x), t)
    ensures |s.stack| < |t.stack| && t.stack[|s.stack|] == x && t.stack[..|s.stack|] == s.stack
    ensures forall n :: n in t.stack ==> (n in s.stack <==> t.num[n] < t.num[x])
    ensures forall n :: n in t.stack[|s.stack|..] <==> n in t.stack && n !in s.stack
    ensures forall n :: n in t.gray && n !in s.stack ==> n == x
  {
    StackKept(s, t, x);
    forall n | n in t.stack
      ensures n in s.stack <==> t.num[n] < t.num[x]
      ensures n in s.stack <==> n !in t.stack[|s.stack|..]
    {
      HeightIsNumber(t, |s.stack|, n);
    }
  }

  lemma LeftBlackClosed(g: Graph, r: Relation, s: Snapshot, t: Snapshot, x: Node, low: int)
    requires Explored(g, r, s, t, x, low)
    ensures BlackClosed(g, Left(t, x))
  {
    forall u, v | u in t.num && u !in t.gray - {x} && Edge(g, u, v) ensures v in t.num {
      if u == x { assert v in g[x]; }
    }
  }

  lemma LeftBounds(g: Graph, r: Relation, s: Snapshot, t: Snapshot, x: Node, low: int)
    requires Explored(g, r, s, t, x, low)
    ensures Bounds(g, t, |s.stack|, low)
  {
    StackKept(s, t, x);
    var h := |s.stack|;
    forall i, j | 0 <= i < h <= j < |t.stack| && Edge(g, t.stack[j], t.stack[i]) ensures low <= t.num[t.stack[i]] {
      if j == h {
        assert t.stack[i] in g[x] && s.stack[i] in s.stack;
      }
    }
  }

  /** If the low link lies below the number of `x`, another node being visited is reachable from all that `x` reached. */
  lemma WaitGrounded(g: Graph, r: Relation, s: Snapshot, t: Snapshot, x: Node, low: int, n: Node)
    requires IsReachability(g, r)
    requires Explored(g, r, s, t, x, low) && low < t.num[x] && n in t.stack
    ensures Grounded(r, Left(t, x), n)
  {
    assert Grounded(r, t, n);
    var z :| z in t.gray && t.num[z] <= t.num[n] && (n, z) in r;
    if z == x {
      var w :| w in t.stack && t.num[w] == low && (x, w) in r;
      assert Grounded(r, t, w);
      var z' :| z' in t.gray && t.num[z'] <= t.num[w] && (w, z') in r;
      assert z' != x;
      Compose(g, r, x, w, z');
      Compose(g, r, n, x, z');
      assert z' in Left(t, x).gray;
    } else {
      assert z in Left(t, x).gray;
    }
  }

  lemma Wait(g: Graph, r: Relation, s: Snapshot, t: Snapshot, x: Node, low: int)
    requires IsReachability(g, r)
    requires Explored(g, r, s, t, x, low) && low < t.num[x]
    ensures Visited(g, r, s, Left(t, x), x, low)
  {
    forall n | n in t.stack ensures Grounded(r, Left(t, x), n) { WaitGrounded(g, r, s, t, x, low, n); }
    WaitRest(g, r, s, t, x, low);
  }

  lemma WaitRest(g: Graph, r: Relation, s: Snapshot, t: Snapshot, x: Node, low: int)
    requires Explored(g, r, s, t, x, low) && low < t.num[x]
    requires forall n {:trigger Grounded(r, Left(t, x), n)} :: n in t.stack ==> Grounded(r, Left(t, x), n)
    ensures Visited(g, r, s, Left(t, x), x, low)
  {
    StackKept(s, t, x);
    LeftBlackClosed(g, r, s, t, x, low);
    LeftBounds(g, r, s, t, x, low);
    StackedPart(t, Left(t, x));
    assert Left(t, x).gray == s.gray;
  }

  /** If the low link equals the number of `x`, nothing above `x` has an edge to the older stack. */
  lemma PopClosed(g: Graph, r: Relation, s: Snapshot, t: Snapshot, x: Node, low: int)
    requires Explored(g, r, s, t, x, low) && low == t.num[x]
    ensures |s.stack| <= |t.stack|
    ensures ClosedUnder(g, t.done + Elements(t.stack[|s.stack|..]))
  {
    StackSplit(g, s, t, x);
    LeftBlackClosed(g, r, s, t, x, low);
    LeftBounds(g, r, s, t, x, low);
    var h := |s.stack|;
    var n := Elements(t.stack[h..]);
    forall u, v | u in t.done + n && Edge(g, u, v) ensures v in t.done + n {
      if u !in t.done {
        assert u in t.stack[h..] && u in t.num;
        assert v in t.num;
      }
    }
  }

  lemma PopMutual(g: Graph, r: Relation, s: Snapshot, t: Snapshot, x: Node, low: int, y: Node)
    requires IsReachability(g, r)
    requires Explored(g, r, s, t, x, low) && low == t.num[x]
    requires |s.stack| <= |t.stack| && y in t.stack[|s.stack|..]
    ensures (x, y) in r && (y, x) in r
  {
    StackSplit(g, s, t, x);
    PopClosed(g, r, s, t, x, low);
    assert Grounded(r, t, y);
    var z :| z in t.gray && t.num[z] <= t.num[y] && (y, z) in r;
    assert Confined(g, r, t.done + Elements(t.stack[|s.stack|..]), y, z);
  }

  /** Nodes mutually related to `x`, closed up to a closed set they avoid, form the class of `x`. */
  lemma ClassOf(g: Graph, r: Relation, done: set<Node>, c: seq<Node>, x: Node)
    requires IsReachability(g, r) && x in c && forall y :: y in c ==> y in g && y !in done
    requires forall y :: y in c ==> (x, y) in r && (y, x) in r
    requires ClosedUnder(g, done) && ClosedUnder(g, done + Elements(c))
    ensures IsClass(g, r, c)
  {
    forall u, v | u in c && v in g ensures v in c <==> (u, v) in r && (v, u) in r {
      assert (u, v) in r ==> Confined(g, r, done + Elements(c), u, v);
      assert (v, u) in r && v in done ==> Confined(g, r, done, v, u);
      if v in c {
        Compose(g, r, u, x, v);
        Compose(g, r, v, x, u);
      }
    }
  }

  /** What lies above the older stack is one strongly connected component. */
  lemma PopClass(g: Graph, r: Relation, s: Snapshot, t: Snapshot, x: Node, low: int)
    requires IsReachability(g, r)
    requires Explored(g, r, s, t, x, low) && low == t.num[x]
    ensures |s.stack| <= |t.stack|
    ensures IsClass(g, r, t.stack[|s.stack|..])
  {
    StackSplit(g, s, t, x);
    PopClosed(g, r, s, t, x, low);
    var c := t.stack[|s.stack|..];
    assert c[0] == x;
    forall y | y in c ensures (x, y) in r && (y, x) in r {
      PopMutual(g, r, s, t, x, low, y);
    }
    ClassOf(g, r, t.done, c, x);
  }

  lemma PopGrounded(g: Graph, r: Relation, s: Snapshot, t: Snapshot, x: Node, low: int, n: Node)
    requires Explored(g, r, s, t, x, low) && n in s.stack
    ensures |s.stack| <= |t.stack|
    ensures Popped(t, |s.stack|, x).gray <= t.num.Keys && n in t.num
    ensures Grounded(r, Popped(t, |s.stack|, x), n)
  {
    StackSplit(g, s, t, x);
    StackKept(s, t, x);
    assert Grounded(r, t, n);
    var z :| z in t.gray && t.num[z] <= t.num[n] && (n, z) in r;
    assert z in Popped(t, |s.stack|, x).gray;
  }

  lemma Pop(g: Graph, r: Relation, s: Snapshot, t: Snapshot, x: Node, low: int)
    requires Explored(g, r, s, t, x, low) && low == t.num[x]
    ensures |s.stack| <= |t.stack|
    ensures Visited(g, r, s, Popped(t, |s.stack|, x), x, low)
  {
    StackSplit(g, s, t, x);
    StackKept(s, t, x);
    var t' := Popped(t, |s.stack|, x);
    forall n | n in t'.stack ensures t'.gray <= t'.num.Keys && n in t'.num && Grounded(r, t', n) {
      PopGrounded(g, r, s, t, x, low, n);
    }
    PopRest(g, r, s, t, x, low);
  }

  lemma PopRest(g: Graph, r: Relation, s: Snapshot, t: Snapshot, x: Node, low: int)
    requires Explored(g, r, s, t, x, low) && low == t.num[x] && |s.stack| <= |t.stack|
    requires var t' := Popped(t, |s.stack|, x);
             t'.gray <= t'.num.Keys && forall n {:trigger Grounded(r, t', n)} :: n in t'.stack ==> n in t'.num && Grounded(r, t', n)
    ensures Visited(g, r, s, Popped(t, |s.stack|, x), x, low)
  {
    StackSplit(g, s, t, x);
    LeftBlackClosed(g, r, s, t, x, low);
    PopClosed(g, r, s, t, x, low);
    StackedPart(t, Popped(t, |s.stack|, x));
    assert Left(t, x).gray == s.gray;
  }

  // ----- The algorithm -----

  /** The emitted components are classes, pairwise disjoint, and cover exactly `done`. */
  ghost predicate Emitted(g: Graph, r: Relation, components: seq<seq<Node>>, done: set<Node>) {
    && (forall i :: 0 <= i < |components| ==> Increasing(components[i]) && IsClass(g, r, components[i]))
    && (forall i, n :: 0 <= i < |components| && n in components[i] ==> n in done)
    && (forall n :: n in done ==> exists i :: 0 <= i < |components| && n in components[i])
    && (forall i, j, n :: 0 <= i < j < |components| && n in components[i] ==> n !in components[j])
  }

  /** Every node being visited reaches the next target. */
  lemma ReachableFromVisiting(g: Graph, r: Relation, s: Snapshot, t: Snapshot, x: Node, low: int, seen: seq<Node>, v: Node)
    requires IsReachability(g, r) && Visiting(g, r, s, t, x, low, seen) && Edge(g, x, v)
    ensures forall y :: y in t.gray ==> (y, v) in r
    ensures (x, v) in r && forall w :: (v, w) in r ==> (x, w) in r
  {
    StackSplit(g, s, t, x);
    forall y | y in t.gray ensures (y, v) in r {
      Compose(g, r, y, x, v);
    }
    forall w | (v, w) in r ensures (x, w) in r {
      Compose(g, r, x, v, w);
    }
  }

  class TarjanState {
    const adjacency: Graph
    ghost const reach: Relation
    var nextIndex: nat
    var stack: seq<Node>
    var onStack: set<Node>
    var indices: map<Node, nat>
    var lowLinks: map<Node, int>
    var components: seq<seq<Node>>
    /** The nodes whose visit has begun and not ended. */
    ghost var visiting: set<Node>
    /** The nodes of the emitted components. */
    ghost var done: set<Node>

    constructor (g: Graph)
      requires WellFormed(g)
      ensures adjacency == g && AtRest()
    {
      adjacency, reach := g, ReachRelation(g);
      nextIndex, stack, onStack, indices, lowLinks, components := 0, [], {}, map[], map[], [];
      visiting, done := {}, {};
    }

    ghost function View(): Snapshot
      reads this
    {
      Snapshot(stack, indices, nextIndex, visiting, done)
    }

    /** The redundant fields agree with the others, and what was emitted is right. */
    ghost predicate Consistent()
      reads this
    {
      && (forall n :: n in onStack <==> n in stack)
      && (forall n :: n in lowLinks <==> n in indices)
      && Emitted(adjacency, reach, components, done)
    }

    /** `node` is being visited since `s`, and its targets in `seen` have been processed. */
    ghost predicate Inside(s: Snapshot, node: Node, seen: seq<Node>)
      reads this
    {
      Consistent() && node in lowLinks && Visiting(adjacency, reach, s, View(), node, lowLinks[node], seen)
    }

    method Visit(node: Node)
      requires WellFormed(adjacency) && IsReachability(adjacency, reach)
      requires Consistent() && Invariant(adjacency, reach, View()) && node in adjacency && node !in indices
      requires forall y :: y in visiting ==> (y, node) in reach
      modifies this
      ensures Consistent()
      ensures LinksKept(old(lowLinks), lowLinks)
      ensures node in lowLinks && (Visited(adjacency, reach, old(View()), View(), node, lowLinks[node]))
      decreases |adjacency.Keys - indices.Keys|, 3
    {
      ghost var s := View();
      Begin(node);
      VisitTargets(s, old(lowLinks), node);
      End(s, node);
    }

    /** The loop over the targets of a node being visited. */
    method VisitTargets(ghost s: Snapshot, ghost links: map<Node, int>, node: Node)
      requires WellFormed(adjacency) && IsReachability(adjacency, reach)
      requires node in adjacency && Inside(s, node, []) && LinksKept(links, lowLinks) && node !in links
      modifies this
      ensures Inside(s, node, adjacency[node]) && LinksKept(links, lowLinks)
      decreases |adjacency.Keys - s.num.Keys|, 2
    {
      var targets := adjacency[node];
      assert targets[..0] == [];
      for i := 0 to |targets|
        invariant Inside(s, node, targets[..i]) && LinksKept(links, lowLinks)
      {
        VisitTarget(s, links, node, i);
      }
      assert targets[..|targets|] == targets;
    }

    /** No visit is in progress. */
    ghost predicate AtRest()
      reads this
    {
      && WellFormed(adjacency) && reach == ReachRelation(adjacency)
      && Consistent() && Invariant(adjacency, reach, View()) && visiting == {}
    }

    /** A visit from outside: it ends with no visit in progress and forgets no number. */
    method VisitRoot(node: Node)
      requires AtRest() && node in adjacency && node !in indices
      modifies this
      ensures AtRest() && node in indices && old(indices).Keys <= indices.Keys
    {
      ReachRelationIsReachability(adjacency);
      Visit(node);
      VisitedGrows(adjacency, reach, old(View()), View(), node, lowLinks[node]);
    }

    /** The entry of a visit: number the node and stack it. */
    method Begin(node: Node)
      requires IsReachability(adjacency, reach)
      requires Consistent() && Invariant(adjacency, reach, View()) && node in adjacency && node !in indices
      requires forall y :: y in visiting ==> (y, node) in reach
      modifies this`nextIndex, this`stack, this`onStack, this`indices, this`lowLinks, this`visiting
      ensures Inside(old(View()), node, [])
      ensures LinksKept(old(lowLinks), lowLinks)
    {
      Enter(adjacency, reach, View(), node);
      indices := indices[node := nextIndex];
      lowLinks := lowLinks[node := nextIndex];
      nextIndex := nextIndex + 1;
      stack := stack + [node];
      onStack := onStack + {node};
      visiting := visiting + {node};
      assert View() == Entered(old(View()), node);
    }

    method VisitTarget(ghost s: Snapshot, ghost links: map<Node, int>, node: Node, i: nat)
      requires WellFormed(adjacency) && IsReachability(adjacency, reach)
      requires node in adjacency && i < |adjacency[node]|
      requires Inside(s, node, adjacency[node][..i]) && LinksKept(links, lowLinks) && node !in links
      modifies this
      ensures Inside(s, node, adjacency[node][..i + 1]) && LinksKept(links, lowLinks)
      decreases |adjacency.Keys - s.num.Keys|, 1
    {
      var target := adjacency[node][i];
      ghost var seen := adjacency[node][..i];
      assert adjacency[node][..i + 1] == seen + [target];
      assert Edge(adjacency, node, target);
      if target !in indices {
        VisitNew(s, links, node, seen, target);
      } else {
        VisitNumbered(s, links, node, seen, target);
      }
    }

    /** The first branch of the target visit: a target without a number is visited, and its low link counts. */
    method VisitNew(ghost s: Snapshot, ghost links: map<Node, int>, node: Node, ghost seen: seq<Node>, target: Node)
      requires WellFormed(adjacency) && IsReachability(adjacency, reach) && Edge(adjacency, node, target)
      requires Inside(s, node, seen) && LinksKept(links, lowLinks) && node !in links && target !in indices
      modifies this
      ensures Inside(s, node, seen + [target]) && LinksKept(links, lowLinks)
      decreases |adjacency.Keys - s.num.Keys|, 0
    {
      ghost var t, low, before := View(), lowLinks[node], lowLinks;
      ReachableFromVisiting(adjacency, reach, s, t, node, low, seen, target);
      FewerUnnumbered(adjacency, reach, s, t, node, low, seen);
      Visit(target);
      LinksCompose(links, before, lowLinks, node);
      Return(adjacency, reach, s, t, View(), node, low, seen, target, lowLinks[target]);
      LowerLink(links, node, lowLinks[target]);
    }

    /** `low_links[node] = min(low_links[node], candidate)` */
    method LowerLink(ghost links: map<Node, int>, node: Node, candidate: int)
      requires Consistent() && node in lowLinks && LinksKept(links, lowLinks) && node !in links
      modifies this`lowLinks
      ensures Consistent() && LinksKept(links, lowLinks) && View() == old(View())
      ensures node in lowLinks && lowLinks[node] == if candidate < old(lowLinks[node]) then candidate else old(lowLinks[node])
    {
      lowLinks := lowLinks[node := if candidate < lowLinks[node] then candidate else lowLinks[node]];
    }

    /** The second branch of the target visit: a target already numbered matters only while it is on the stack. */
    method VisitNumbered(ghost s: Snapshot, ghost links: map<Node, int>, node: Node, ghost seen: seq<Node>, target: Node)
      requires Inside(s, node, seen) && target in indices && (node, target) in reach
      requires LinksKept(links, lowLinks) && node !in links
      modifies this`lowLinks
      ensures Inside(s, node, seen + [target])
      ensures LinksKept(links, lowLinks)
    {
      if target in onStack {
        SeeStacked(adjacency, reach, s, View(), node, lowLinks[node], seen, target);
        LowerLink(links, node, indices[target]);
      } else {
        SeeNumbered(adjacency, reach, s, View(), node, lowLinks[node], seen, target);
      }
    }

    /** The exit of a visit: pop a component if the low link is the node's own number. */
    method End(ghost s: Snapshot, node: Node)
      requires IsReachability(adjacency, reach)
      requires node in adjacency && Inside(s, node, adjacency[node])
      modifies this
      ensures Consistent() && lowLinks == old(lowLinks) && indices == old(indices)
      ensures Visited(adjacency, reach, s, View(), node, lowLinks[node])
    {
      ghost var t, low := View(), lowLinks[node];
      if lowLinks[node] == indices[node] {
        StackSplit(adjacency, s, t, node);
        PopClass(adjacency, reach, s, t, node, low);
        Pop(adjacency, reach, s, t, node, low);
        StackedDistinct(adjacency, t);
        EmitComponent(node, |s.stack|);
      } else {
        Wait(adjacency, reach, s, t, node, low);
        visiting := visiting - {node};
        assert View() == Left(t, node);
      }
    }

    method EmitComponent(node: Node, ghost h: nat)
      requires Consistent() && h < |stack| && stack[h] == node && Distinct(stack)
      requires IsClass(adjacency, reach, stack[h..])
      requires forall n :: n in stack ==> n !in done
      modifies this
      ensures Consistent() && lowLinks == old(lowLinks) && indices == old(indices)
      ensures View() == Popped(old(View()), h, node)
    {
      var members := PopComponent(node, h);
      SameClass(adjacency, reach, old(stack)[h..], members);
      EmitOne(adjacency, reach, components, done, members, done + Elements(old(stack)[h..]));
      components := components + [members];
      done := done + Elements(old(stack)[h..]);
      visiting := visiting - {node};
    }

    /** Pop until `root` comes off; what came off is returned sorted. */
    method PopComponent(root: Node, ghost h: nat) returns (members: seq<Node>)
      requires h < |stack| && stack[h] == root && Distinct(stack)
      requires forall n :: n in onStack <==> n in stack
      modifies this`stack, this`onStack
      ensures stack == old(stack)[..h]
      ensures forall n :: n in onStack <==> n in stack
      ensures Increasing(members) && forall n :: n in members <==> n in old(stack)[h..]
    {
      var popped: seq<Node> := [];
      var stop := false;
      while stack != [] && !stop
        invariant h <= |stack| <= |old(stack)| && stack == old(stack)[..|stack|]
        invariant stop <==> |stack| == h
        invariant forall n :: n in onStack <==> n in stack
        invariant forall n :: n in popped <==> n in old(stack)[|stack|..]
        decreases |stack|
      {
        var member := stack[|stack| - 1];
        assert old(stack)[|stack| - 1..] == [member] + old(stack)[|stack|..];
        assert stack == stack[..|stack| - 1] + [member];
        stack := stack[..|stack| - 1];
        onStack := onStack - {member};
        popped := popped + [member];
        if member == root { stop := true; }
      }
      members := SortedNodes(Elements(popped));
    }
  }

  lemma SameClass(g: Graph, r: Relation, c: seq<Node>, d: seq<Node>)
    requires IsClass(g, r, c) && forall n :: n in c <==> n in d
    ensures IsClass(g, r, d)
  {
    var u: Node := c[0];
    assert u in c;
    assert u in d;
  }

  /** Low links already recorded stay as they are. */
  ghost predicate LinksKept(links: map<Node, int>, links': map<Node, int>) {
    forall n :: n in links ==> n in links' && links'[n] == links[n]
  }

  lemma LinksCompose(links: map<Node, int>, before: map<Node, int>, after: map<Node, int>, node: Node)
    requires LinksKept(links, before) && LinksKept(before, after) && node in before
    ensures LinksKept(links, after) && node in after && after[node] == before[node]
  {
  }

  lemma VisitingGrows(g: Graph, r: Relation, s: Snapshot, t: Snapshot, x: Node, low: int, seen: seq<Node>)
    requires Visiting(g, r, s, t, x, low, seen)
    ensures s.num.Keys <= t.num.Keys && x in t.num && x !in s.num
  {
    assert forall n :: n in s.num ==> n in Entered(s, x).num;
    assert forall n :: n in s.num ==> n in t.num;
    KeysWithin(s.num, t.num);
  }

  /** Inside a visit fewer nodes are left without a number than at its start. */
  lemma FewerUnnumbered(g: Graph, r: Relation, s: Snapshot, t: Snapshot, x: Node, low: int, seen: seq<Node>)
    requires Visiting(g, r, s, t, x, low, seen)
    ensures |g.Keys - t.num.Keys| < |g.Keys - s.num.Keys|
  {
    VisitingGrows(g, r, s, t, x, low, seen);
    FewerLeft(g.Keys, s.num.Keys, t.num.Keys, x);
  }

  lemma VisitedGrows(g: Graph, r: Relation, s: Snapshot, t: Snapshot, x: Node, low: int)
    requires Visited(g, r, s, t, x, low)
    ensures s.num.Keys <= t.num.Keys && x in t.num && t.gray == s.gray
  {
    assert forall n :: n in s.num ==> n in t.num;
    KeysWithin(s.num, t.num);
  }

  /** Emitting one more class keeps the list of classes in order. */
  lemma EmitOne(g: Graph, r: Relation, components: seq<seq<Node>>, done: set<Node>, members: seq<Node>, done': set<Node>)
    requires Emitted(g, r, components, done)
    requires Increasing(members) && IsClass(g, r, members) && forall n :: n in members ==> n !in done
    requires forall n :: n in done' <==> n in done || n in members
    ensures Emitted(g, r, components + [members], done')
  {
    var next := components + [members];
    forall n | n in done' ensures exists i :: 0 <= i < |next| && n in next[i] {
      if n in done {
        var i :| 0 <= i < |components| && n in components[i];
        assert n in next[i];
      } else {
        assert n in next[|components|];
      }
    }
  }

  // ----- The components of a graph -----

  /** A maximal set of mutually reachable nodes. */
  ghost predicate IsScc(g: Graph, c: seq<Node>) {
    && c != [] && Increasing(c) && (forall u :: u in c ==> u in g)
    && forall u, v :: u in c && v in g ==> (v in c <==> Mutual(g, u, v))
  }

  /** A list of strongly connected components that puts every node into exactly one of them. */
  ghost predicate IsSccPartition(g: Graph, comps: seq<seq<Node>>) {
    && (forall i :: 0 <= i < |comps| ==> IsScc(g, comps[i]))
    && (forall u :: u in g ==> exists i :: 0 <= i < |comps| && u in comps[i])
    && (forall i, j, u :: 0 <= i < j < |comps| && u in comps[i] ==> u !in comps[j])
  }

  lemma ClassIsScc(g: Graph, c: seq<Node>)
    requires WellFormed(g) && Increasing(c) && IsClass(g, ReachRelation(g), c)
    ensures IsScc(g, c)
  {
    forall u, v | u in c && v in g ensures v in c <==> Mutual(g, u, v) {
      assert u in g;
    }
  }

  /** The main loop: start a visit at every node not yet reached. */
  method ComponentMembers(nodes: seq<Node>, g: Graph) returns (comps: seq<seq<Node>>)
    requires WellFormed(g) && Elements(nodes) == g.Keys
    ensures IsSccPartition(g, comps)
  {
    var state := new TarjanState(g);
    for i := 0 to |nodes|
      invariant state.AtRest() && state.adjacency == g && fresh(state)
      invariant forall k :: 0 <= k < i ==> nodes[k] in state.indices
    {
      if nodes[i] !in state.indices {
        assert nodes[i] in Elements(nodes);
        state.VisitRoot(nodes[i]);
      }
    }
    comps := state.components;
    AllCovered(g, nodes, state.View(), comps);
  }

  /** With every node numbered and no visit in progress, the emitted components are the strongly connected ones. */
  lemma AllCovered(g: Graph, nodes: seq<Node>, s: Snapshot, comps: seq<seq<Node>>)
    requires WellFormed(g) && Elements(nodes) == g.Keys
    requires Invariant(g, ReachRelation(g), s) && s.gray == {} && Emitted(g, ReachRelation(g), comps, s.done)
    requires forall k :: 0 <= k < |nodes| ==> nodes[k] in s.num
    ensures IsSccPartition(g, comps)
  {
    AllEmitted(g, ReachRelation(g), s);
    forall u | u in g ensures u in s.done {
      assert u in Elements(nodes);
    }
    forall i | 0 <= i < |comps| ensures IsScc(g, comps[i]) {
      ClassIsScc(g, comps[i]);
    }
  }

  /** With no visit in progress the stack is empty. */
  lemma AllEmitted(g: Graph, r: Relation, s: Snapshot)
    requires Invariant(g, r, s) && s.gray == {}
    ensures s.stack == [] && forall n :: n in s.num ==> n in s.done
  {
    if s.stack != [] {
      var x := s.stack[0];
      var grounded := Grounded(r, s, x);
    }
  }
}
