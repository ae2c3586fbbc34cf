/** Typed resource references and the total order in which nodes are handled. */
module Resources {
  import opened Digraph

  /** In the order of the kinds' values: "gate" < "program" < "work_item". */
  datatype ResourceKind = Gate | Program | WorkItem

  /** A resource is named by its kind and its identifier, a 128-bit ULID. */
  datatype ResourceRef = ResourceRef(kind: ResourceKind, number: nat)

  const ULIDS := 0x1_0000_0000_0000_0000_0000_0000_0000_0000

  function KindRank(kind: ResourceKind): nat {
    match kind
    case Gate => 0
    case Program => 1
    case WorkItem => 2
  }

  /** The node that stands for a resource. */
  function Rank(r: ResourceRef): Node {
    KindRank(r.kind) * ULIDS + r.number
  }

  predicate IsWorkItem(n: Node) {
    2 * ULIDS <= n < 3 * ULIDS
  }

  /** `_node_key`: kind value first, identifier second. */
  predicate KeyLess(a: ResourceRef, b: ResourceRef) {
    || (a.kind.Gate? && !b.kind.Gate?) || (a.kind.Program? && b.kind.WorkItem?)
    || (a.kind == b.kind && a.number < b.number)
  }

  /** Nodes are faithful: they compare as keys do, determine the resource, and reveal work items. */
  lemma RankIsKey(a: ResourceRef, b: ResourceRef)
    requires a.number < ULIDS && b.number < ULIDS
    ensures Rank(a) < Rank(b) <==> KeyLess(a, b)
    ensures Rank(a) == Rank(b) <==> a == b
    ensures IsWorkItem(Rank(a)) <==> a.kind.WorkItem?
  {
  }
}
