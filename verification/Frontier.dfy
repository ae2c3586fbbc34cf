/** The frontier solver: item-local readiness, then a total order under any legal comparator pipeline. */
module Frontier {
  import opened Ordering

  datatype WorkClass = Foundation | Implementation | Certification

  datatype Comparator = ProgramPriority | WorkClassOrder | DownstreamUnlockCountDesc | AgeDesc | StableId

  /** An identifier stands for its rank in string order. */
  datatype Item = Item(
    itemId: int,
    lifecycle: string,
    programPriority: int,
    workClass: WorkClass,
    downstreamUnlockCount: int,
    ageSeconds: int,
    hardBlockersComplete: bool,
    entryGatesPass: bool,
    authoritySafe: bool)

  datatype Reason = Ready | LifecycleNotActionable | IncompleteHardBlocker | EntryGateBlocked | UnsafeAuthority

  datatype Position = Unranked | At(position: nat)

  datatype Decision = Decision(item: Item, reasons: seq<Reason>, position: Position) {
    predicate IsReady() {
      reasons == [Reason.Ready]
    }
  }

  datatype Recommendation = Nothing | Recommended(itemId: int, position: nat)

  datatype Snapshot = DuplicateIds | Snapshot(items: seq<Item>)

  // ----- Pipelines and keys -----

  /** Non-empty, without repetition, and closed by the stable identifier. */
  ghost predicate LegalPipeline(comparators: seq<Comparator>) {
    comparators != [] && Distinct(comparators) && comparators[|comparators| - 1] == StableId
  }

  method ValidatePipeline(comparators: seq<Comparator>) returns (ok: bool)
    ensures ok <==> LegalPipeline(comparators)
  {
    DistinctIffCount(comparators);
    ok := comparators != [] && |comparators| == |Elements(comparators)| && comparators[|comparators| - 1] == StableId;
  }

  function Component(item: Item, comparator: Comparator): int {
    match comparator
    case ProgramPriority => -item.programPriority
    case WorkClassOrder => (match item.workClass case Foundation => 0 case Implementation => 1 case Certification => 2)
    case DownstreamUnlockCountDesc => -item.downstreamUnlockCount
    case AgeDesc => -item.ageSeconds
    case StableId => item.itemId
  }

  function Key(item: Item, comparators: seq<Comparator>): (key: seq<int>)
    ensures |key| == |comparators|
  {
    seq(|comparators|, i requires 0 <= i < |comparators| => Component(item, comparators[i]))
  }

  predicate Before(a: Item, b: Item, comparators: seq<Comparator>) {
    LexLess(Key(a, comparators), Key(b, comparators))
  }

  /** A legal pipeline puts any two items with different identifiers in one order. */
  lemma BeforeTotal(a: Item, b: Item, comparators: seq<Comparator>)
    requires LegalPipeline(comparators) && a.itemId != b.itemId
    ensures Before(a, b, comparators) != Before(b, a, comparators)
  {
    var x, y := Key(a, comparators), Key(b, comparators);
    assert x[|x| - 1] == a.itemId && y[|y| - 1] == b.itemId;
    LexTotal(x, y);
    if LexLess(x, y) { LexAsymmetric(x, y); }
  }

  // ----- Sorting -----

  /** Insert in front of the first item whose key is not smaller. */
  function Insert(item: Item, sorted: seq<Item>, comparators: seq<Comparator>): seq<Item> {
    if sorted != [] && Before(sorted[0], item, comparators) then [sorted[0]] + Insert(item, sorted[1..], comparators)
    else [item] + sorted
  }

  /** The stable sort by key. */
  function Sorted(items: seq<Item>, comparators: seq<Comparator>): seq<Item> {
    if items == [] then [] else Insert(items[0], Sorted(items[1..], comparators), comparators)
  }

  ghost predicate StrictlySorted(items: seq<Item>, comparators: seq<Comparator>) {
    forall i, j :: 0 <= i < j < |items| ==> Before(items[i], items[j], comparators)
  }

  ghost predicate UniqueItemIds(items: seq<Item>) {
    forall i, j :: 0 <= i < j < |items| ==> items[i].itemId != items[j].itemId
  }

  lemma {:induction false} InsertPermutes(item: Item, sorted: seq<Item>, comparators: seq<Comparator>)
    ensures multiset(Insert(item, sorted, comparators)) == multiset(sorted) + multiset{item}
  {
    if sorted != [] && Before(sorted[0], item, comparators) {
      InsertPermutes(item, sorted[1..], comparators);
      assert sorted == [sorted[0]] + sorted[1..];
    }
  }

  lemma {:induction false} SortedPermutes(items: seq<Item>, comparators: seq<Comparator>)
    ensures multiset(Sorted(items, comparators)) == multiset(items)
  {
    if items != [] {
      SortedPermutes(items[1..], comparators);
      InsertPermutes(items[0], Sorted(items[1..], comparators), comparators);
      assert items == [items[0]] + items[1..];
    }
  }

  lemma BeforeTransitive(a: Item, b: Item, c: Item, comparators: seq<Comparator>)
    requires Before(a, b, comparators) && Before(b, c, comparators)
    ensures Before(a, c, comparators)
  {
    LexTransitive(Key(a, comparators), Key(b, comparators), Key(c, comparators));
  }

  lemma SameElements(a: seq<Item>, b: seq<Item>)
    requires multiset(a) == multiset(b)
    ensures |a| == |b| && forall x :: x in a <==> x in b
  {
    assert |multiset(a)| == |multiset(b)|;
    forall x ensures x in a <==> x in b {
      assert x in a <==> x in multiset(a);
      assert x in b <==> x in multiset(b);
    }
  }

  ghost predicate BeforeAll(item: Item, items: seq<Item>, comparators: seq<Comparator>) {
    forall x :: x in items ==> Before(item, x, comparators)
  }

  lemma InsertElements(item: Item, sorted: seq<Item>, comparators: seq<Comparator>)
    ensures forall x :: x in Insert(item, sorted, comparators) <==> x == item || x in sorted
  {
    InsertPermutes(item, sorted, comparators);
    assert multiset([item] + sorted) == multiset(sorted) + multiset{item};
    SameElements(Insert(item, sorted, comparators), [item] + sorted);
  }

  lemma StartSorted(item: Item, rest: seq<Item>, comparators: seq<Comparator>)
    requires StrictlySorted(rest, comparators) && BeforeAll(item, rest, comparators)
    ensures StrictlySorted([item] + rest, comparators)
  {
    forall i, j | 0 <= i < j < |[item] + rest| ensures Before(([item] + rest)[i], ([item] + rest)[j], comparators) {
      assert rest[j - 1] in rest;
    }
  }

  lemma FirstBeforeRest(sorted: seq<Item>, comparators: seq<Comparator>)
    requires StrictlySorted(sorted, comparators) && sorted != []
    ensures StrictlySorted(sorted[1..], comparators) && BeforeAll(sorted[0], sorted[1..], comparators)
  {
    var rest := sorted[1..];
    forall i, j | 0 <= i < j < |rest| ensures Before(rest[i], rest[j], comparators) {
      assert rest[i] == sorted[i + 1] && rest[j] == sorted[j + 1];
    }
    forall x | x in rest ensures Before(sorted[0], x, comparators) {
      var k :| 0 <= k < |rest| && rest[k] == x;
      assert sorted[k + 1] == x;
    }
  }

  lemma {:induction false} InsertSorts(item: Item, sorted: seq<Item>, comparators: seq<Comparator>)
    requires LegalPipeline(comparators) && StrictlySorted(sorted, comparators)
    requires forall x :: x in sorted ==> x.itemId != item.itemId
    ensures StrictlySorted(Insert(item, sorted, comparators), comparators)
  {
    if sorted == [] {
    } else if Before(sorted[0], item, comparators) {
      FirstBeforeRest(sorted, comparators);
      InsertSorts(item, sorted[1..], comparators);
      InsertElements(item, sorted[1..], comparators);
      StartSorted(sorted[0], Insert(item, sorted[1..], comparators), comparators);
    } else {
      BeforeTotal(item, sorted[0], comparators);
      FirstBeforeRest(sorted, comparators);
      forall x | x in sorted ensures Before(item, x, comparators) {
        if x != sorted[0] {
          assert x in sorted[1..];
          BeforeTransitive(item, sorted[0], x, comparators);
        }
      }
      StartSorted(item, sorted, comparators);
    }
  }

  lemma {:induction false} SortedSorts(items: seq<Item>, comparators: seq<Comparator>)
    requires LegalPipeline(comparators) && UniqueItemIds(items)
    ensures StrictlySorted(Sorted(items, comparators), comparators)
  {
    if items != [] {
      SortedSorts(items[1..], comparators);
      var rest := Sorted(items[1..], comparators);
      SortedPermutes(items[1..], comparators);
      SameElements(rest, items[1..]);
      forall x | x in rest ensures x.itemId != items[0].itemId {
        var k :| 0 <= k < |items[1..]| && items[1..][k] == x;
        assert items[k + 1] == x;
      }
      InsertSorts(items[0], rest, comparators);
    }
  }

  lemma SameFirst(a: seq<Item>, b: seq<Item>, comparators: seq<Comparator>)
    requires StrictlySorted(a, comparators) && StrictlySorted(b, comparators)
    requires a != [] && b != [] && a[0] in b && b[0] in a
    ensures a[0] == b[0]
  {
    if a[0] != b[0] {
      var i :| 0 <= i < |a| && a[i] == b[0];
      var j :| 0 <= j < |b| && b[j] == a[0];
      LexAsymmetric(Key(a[0], comparators), Key(b[0], comparators));
    }
  }

  lemma SameRest(a: seq<Item>, b: seq<Item>)
    requires a != [] && b != [] && a[0] == b[0] && multiset(a) == multiset(b)
    ensures multiset(a[1..]) == multiset(b[1..])
  {
    assert a == [a[0]] + a[1..] && b == [b[0]] + b[1..];
    assert multiset(a[1..]) == multiset(a) - multiset{a[0]};
    assert multiset(b[1..]) == multiset(b) - multiset{b[0]};
  }

  /** A strictly sorted sequence is determined by its elements. */
  lemma {:induction false} StrictlySortedUnique(a: seq<Item>, b: seq<Item>, comparators: seq<Comparator>)
    requires StrictlySorted(a, comparators) && StrictlySorted(b, comparators) && multiset(a) == multiset(b)
    ensures a == b
  {
    SameElements(a, b);
    if a != [] {
      assert a[0] in b && b[0] in a;
      SameFirst(a, b, comparators);
      SameRest(a, b);
      FirstBeforeRest(a, comparators);
      FirstBeforeRest(b, comparators);
      StrictlySortedUnique(a[1..], b[1..], comparators);
      assert a == [a[0]] + a[1..] && b == [b[0]] + b[1..];
    }
  }

  /** Position in a strict order is the number of smaller items: raising an item past others never moves it back. */
  lemma NotLater(a: seq<Item>, i: nat, b: seq<Item>, j: nat, comparators: seq<Comparator>)
    requires StrictlySorted(a, comparators) && StrictlySorted(b, comparators) && i < |a| && j < |b|
    requires forall x :: x in b && Before(x, b[j], comparators) ==> x in a && Before(x, a[i], comparators)
    ensures j <= i
  {
    forall k | 0 <= k < j ensures b[..j][k] in Elements(a[..i]) {
      assert b[k] in b && Before(b[k], b[j], comparators);
      var n :| 0 <= n < |a| && a[n] == b[k];
      if n >= i {
        if n > i { LexAsymmetric(Key(a[i], comparators), Key(a[n], comparators)); }
        LexAsymmetric(Key(a[n], comparators), Key(a[i], comparators));
      }
      assert n < i && a[..i][n] == b[k];
    }
    forall m, n | 0 <= m < n < |b[..j]| ensures b[..j][m] != b[..j][n] {
      LexAsymmetric(Key(b[m], comparators), Key(b[n], comparators));
    }
    DistinctBound(b[..j], Elements(a[..i]));
    ElementsBound(a[..i]);
  }

  // ----- Snapshots -----

  function ItemIds(items: seq<Item>): (ids: seq<int>)
    ensures |ids| == |items|
  {
    seq(|items|, i requires 0 <= i < |items| => items[i].itemId)
  }

  lemma UniqueIdsCount(items: seq<Item>)
    ensures UniqueItemIds(items) <==> |Elements(ItemIds(items))| == |items|
  {
    DistinctIffCount(ItemIds(items));
    assert forall i :: 0 <= i < |items| ==> ItemIds(items)[i] == items[i].itemId;
  }

  lemma SameIds(a: seq<Item>, b: seq<Item>)
    requires forall x :: x in a ==> x in b
    ensures Elements(ItemIds(a)) <= Elements(ItemIds(b))
  {
    forall id | id in ItemIds(a) ensures id in ItemIds(b) {
      var i :| 0 <= i < |a| && ItemIds(a)[i] == id;
      assert a[i] in b;
      var j :| 0 <= j < |b| && b[j] == a[i];
      assert ItemIds(b)[j] == id;
    }
  }

  /** Whether identifiers repeat does not depend on the order of the items. */
  lemma UniquePermuted(a: seq<Item>, b: seq<Item>)
    requires multiset(a) == multiset(b)
    ensures UniqueItemIds(a) <==> UniqueItemIds(b)
  {
    SameElements(a, b);
    SameIds(a, b);
    SameIds(b, a);
    assert Elements(ItemIds(a)) == Elements(ItemIds(b));
    UniqueIdsCount(a);
    UniqueIdsCount(b);
  }

  /** Items in identifier order, or a refusal of repeated identifiers. */
  method BuildSnapshot(items: seq<Item>) returns (r: Snapshot)
    ensures r.DuplicateIds? <==> !UniqueItemIds(items)
    ensures r.Snapshot? ==> r.items == Sorted(items, [StableId])
    ensures r.Snapshot? ==> forall i, j :: 0 <= i < j < |r.items| ==> r.items[i].itemId < r.items[j].itemId
    ensures r.Snapshot? ==> multiset(r.items) == multiset(items) && UniqueItemIds(r.items) && StrictlySorted(r.items, [StableId])
  {
    var ordered := Sorted(items, [StableId]);
    var ids := ItemIds(ordered);
    UniqueIdsCount(ordered);
    SortedPermutes(items, [StableId]);
    UniquePermuted(items, ordered);
    if |ids| != |Elements(ids)| {
      return DuplicateIds;
    }
    SortedSorts(items, [StableId]);
    ById(ordered);
    r := Snapshot(ordered);
  }

  /** Sorted by the stable identifier alone means in increasing order of identifiers. */
  lemma ById(items: seq<Item>)
    requires StrictlySorted(items, [StableId])
    ensures forall i, j :: 0 <= i < j < |items| ==> items[i].itemId < items[j].itemId
  {
    forall i, j | 0 <= i < j < |items| ensures items[i].itemId < items[j].itemId {
      var x, y := Key(items[i], [StableId]), Key(items[j], [StableId]);
      assert Before(items[i], items[j], [StableId]);
      var k :| 0 <= k < |x| && FirstDifferenceLess(x, y, k);
      assert k == 0;
    }
  }

  /** Sorting forgets the order of the input. */
  lemma SortedPermuted(a: seq<Item>, b: seq<Item>, comparators: seq<Comparator>)
    requires LegalPipeline(comparators) && UniqueItemIds(a) && multiset(a) == multiset(b)
    ensures Sorted(a, comparators) == Sorted(b, comparators)
  {
    UniquePermuted(a, b);
    SortedPermutes(a, comparators);
    SortedPermutes(b, comparators);
    SortedSorts(a, comparators);
    SortedSorts(b, comparators);
    StrictlySortedUnique(Sorted(a, comparators), Sorted(b, comparators), comparators);
  }

  // ----- Readiness -----

  /** Why an item is not ready, from its own facts only; `Ready` alone if nothing stands against it. */
  function Reasons(item: Item): seq<Reason> {
    var reasons :=
      (if item.lifecycle != "planned" && item.lifecycle != "active" then [LifecycleNotActionable] else [])
      + (if !item.hardBlockersComplete then [IncompleteHardBlocker] else [])
      + (if !item.entryGatesPass then [EntryGateBlocked] else [])
      + (if !item.authoritySafe then [UnsafeAuthority] else []);
    if reasons == [] then [Ready] else reasons
  }

  predicate IsReady(item: Item) {
    && (item.lifecycle == "planned" || item.lifecycle == "active")
    && item.hardBlockersComplete && item.entryGatesPass && item.authoritySafe
  }

  /** The verdict is the conjunction of the four item-local conditions. */
  lemma ReadyMeansAllHold(item: Item)
    ensures Reasons(item) == [Ready] <==> IsReady(item)
  {
    var r := Reasons(item);
    if !IsReady(item) {
      assert r[0] != Ready;
    }
  }

  // ----- The frontier -----

  /** The items of one readiness, in the given order. */
  function Select(items: seq<Item>, ready: bool): seq<Item> {
    if items == [] then []
    else if IsReady(items[|items| - 1]) == ready then Select(items[..|items| - 1], ready) + [items[|items| - 1]]
    else Select(items[..|items| - 1], ready)
  }

  function Ranked(items: seq<Item>, comparators: seq<Comparator>): seq<Item> {
    Sorted(Select(items, true), comparators)
  }

  /** Ranked items at positions 1, 2, ...; then the others, unranked, in the order given. */
  function Decide(ranked: seq<Item>, rest: seq<Item>): seq<Decision> {
    seq(|ranked| + |rest|, i requires 0 <= i < |ranked| + |rest| =>
      if i < |ranked| then Decision(ranked[i], Reasons(ranked[i]), At(i + 1))
      else Decision(rest[i - |ranked|], Reasons(rest[i - |ranked|]), Unranked))
  }

  function Frontier(items: seq<Item>, comparators: seq<Comparator>): seq<Decision> {
    Decide(Ranked(items, comparators), Select(items, false))
  }

  function Recommend(decisions: seq<Decision>): Recommendation {
    if decisions != [] && decisions[0].IsReady() then Recommended(decisions[0].item.itemId, 1) else Nothing
  }

  lemma {:induction false} SelectMeaning(items: seq<Item>, ready: bool)
    ensures forall x :: x in Select(items, ready) <==> x in items && IsReady(x) == ready
  {
    if items != [] {
      var k := |items| - 1;
      SelectMeaning(items[..k], ready);
      assert items == items[..k] + [items[k]];
    }
  }

  lemma UniqueAppend(items: seq<Item>, item: Item)
    requires UniqueItemIds(items) && forall x :: x in items ==> x.itemId != item.itemId
    ensures UniqueItemIds(items + [item])
  {
    forall i | 0 <= i < |items| ensures items[i].itemId != item.itemId { assert items[i] in items; }
  }

  lemma {:induction false} SelectUnique(items: seq<Item>, ready: bool)
    requires UniqueItemIds(items)
    ensures UniqueItemIds(Select(items, ready))
  {
    if items != [] {
      var k := |items| - 1;
      SelectUnique(items[..k], ready);
      SelectMeaning(items[..k], ready);
      forall x | x in Select(items[..k], ready) ensures x.itemId != items[k].itemId {
        var j :| 0 <= j < k && items[..k][j] == x;
        assert items[j] == x;
      }
      UniqueAppend(Select(items[..k], ready), items[k]);
    }
  }

  lemma {:induction false} SelectSplits(items: seq<Item>)
    ensures multiset(Select(items, true)) + multiset(Select(items, false)) == multiset(items)
  {
    if items != [] {
      SelectSplits(items[..|items| - 1]);
      assert items == items[..|items| - 1] + [items[|items| - 1]];
    }
  }

  ghost predicate ReasonsTable(items: seq<Item>, reasons: map<int, seq<Reason>>) {
    forall x :: x in items ==> x.itemId in reasons && reasons[x.itemId] == Reasons(x)
  }

  /** Every ranked item at one more than its index, and no other identifier. */
  ghost predicate PositionTable(ranked: seq<Item>, positions: map<int, nat>) {
    && (forall k :: 0 <= k < |ranked| ==> ranked[k].itemId in positions && positions[ranked[k].itemId] == k + 1)
    && (forall id :: id in positions ==> exists k :: 0 <= k < |ranked| && ranked[k].itemId == id)
  }

  ghost predicate Classified(items: seq<Item>, n: nat, readyItems: seq<Item>, reasons: map<int, seq<Reason>>) {
    n <= |items| && readyItems == Select(items[..n], true) && ReasonsTable(items[..n], reasons)
  }

  lemma ReasonsAdd(seen: seq<Item>, item: Item, reasons: map<int, seq<Reason>>)
    requires ReasonsTable(seen, reasons) && forall x :: x in seen ==> x.itemId != item.itemId
    ensures ReasonsTable(seen + [item], reasons[item.itemId := Reasons(item)])
  {
  }

  lemma ClassifyStep(items: seq<Item>, n: nat, readyItems: seq<Item>, reasons: map<int, seq<Reason>>)
    requires UniqueItemIds(items) && n < |items| && Classified(items, n, readyItems, reasons)
    ensures Classified(items, n + 1, if Reasons(items[n]) == [Ready] then readyItems + [items[n]] else readyItems,
                       reasons[items[n].itemId := Reasons(items[n])])
  {
    var seen, item := items[..n], items[n];
    forall x | x in seen ensures x.itemId != item.itemId {
      var k :| 0 <= k < n && items[k] == x;
    }
    ReasonsAdd(seen, item, reasons);
    assert items[..n + 1] == seen + [item] && items[..n + 1][..n] == seen;
    ReadyMeansAllHold(item);
  }

  /** One pass over the items: every verdict is noted, the ready items are collected. */
  method Classify(items: seq<Item>) returns (readyItems: seq<Item>, reasonsByItem: map<int, seq<Reason>>)
    requires UniqueItemIds(items)
    ensures readyItems == Select(items, true) && ReasonsTable(items, reasonsByItem)
  {
    readyItems, reasonsByItem := [], map[];
    for i := 0 to |items|
      invariant Classified(items, i, readyItems, reasonsByItem)
    {
      ClassifyStep(items, i, readyItems, reasonsByItem);
      var reasons := Reasons(items[i]);
      reasonsByItem := reasonsByItem[items[i].itemId := reasons];
      if reasons == [Ready] {
        readyItems := readyItems + [items[i]];
      }
    }
    assert items[..|items|] == items;
  }

  method NumberPositions(ranked: seq<Item>) returns (positions: map<int, nat>)
    requires UniqueItemIds(ranked)
    ensures PositionTable(ranked, positions)
  {
    positions := map[];
    for i := 0 to |ranked|
      invariant forall k :: 0 <= k < i ==> ranked[k].itemId in positions && positions[ranked[k].itemId] == k + 1
      invariant forall id :: id in positions ==> exists k :: 0 <= k < i && ranked[k].itemId == id
    {
      positions := positions[ranked[i].itemId := i + 1];
    }
  }

  /** The items that got no position. */
  method Unpositioned(items: seq<Item>, ghost ranked: seq<Item>, positions: map<int, nat>) returns (rest: seq<Item>)
    requires UniqueItemIds(items) && PositionTable(ranked, positions)
    requires forall x :: x in ranked <==> x in items && IsReady(x)
    ensures rest == Select(items, false)
  {
    rest := [];
    ghost var seen: seq<Item> := [];
    for i := 0 to |items|
      invariant seen == items[..i] && rest == Select(seen, false)
    {
      var item := items[i];
      PositionMeansReady(items, ranked, positions, i);
      if item.itemId !in positions {
        rest := rest + [item];
      }
      assert (seen + [item])[..i] == seen;
      seen := seen + [item];
    }
    assert seen == items;
  }

  lemma PositionMeansReady(items: seq<Item>, ranked: seq<Item>, positions: map<int, nat>, i: nat)
    requires UniqueItemIds(items) && PositionTable(ranked, positions) && i < |items|
    requires forall x :: x in ranked <==> x in items && IsReady(x)
    ensures items[i].itemId in positions <==> IsReady(items[i])
  {
    if IsReady(items[i]) {
      assert items[i] in ranked;
    }
    if items[i].itemId in positions {
      var k :| 0 <= k < |ranked| && ranked[k].itemId == items[i].itemId;
      assert ranked[k] in items;
      var j :| 0 <= j < |items| && items[j] == ranked[k];
      assert i == j;
    }
  }

  lemma RankedFacts(items: seq<Item>, comparators: seq<Comparator>)
    requires LegalPipeline(comparators) && UniqueItemIds(items)
    ensures StrictlySorted(Ranked(items, comparators), comparators) && UniqueItemIds(Ranked(items, comparators))
    ensures multiset(Ranked(items, comparators)) == multiset(Select(items, true))
    ensures forall x :: x in Ranked(items, comparators) <==> x in items && IsReady(x)
  {
    SelectMeaning(items, true);
    SelectUnique(items, true);
    SortedPermutes(Select(items, true), comparators);
    SortedSorts(Select(items, true), comparators);
    UniquePermuted(Select(items, true), Ranked(items, comparators));
    SameElements(Ranked(items, comparators), Select(items, true));
  }

  function DecisionOn(item: Item, reasons: map<int, seq<Reason>>, positions: map<int, nat>): Decision
    requires item.itemId in reasons
  {
    Decision(item, reasons[item.itemId], if item.itemId in positions then At(positions[item.itemId]) else Unranked)
  }

  method RecordDecisions(recordItems: seq<Item>, reasons: map<int, seq<Reason>>, positions: map<int, nat>, ghost goal: seq<Decision>)
    returns (decisions: seq<Decision>)
    requires |goal| == |recordItems|
    requires forall i :: 0 <= i < |recordItems| ==>
               recordItems[i].itemId in reasons && goal[i] == DecisionOn(recordItems[i], reasons, positions)
    ensures decisions == goal
  {
    decisions := [];
    for i := 0 to |recordItems|
      invariant decisions == goal[..i]
    {
      decisions := decisions + [DecisionOn(recordItems[i], reasons, positions)];
    }
  }

  lemma DecideAt(ranked: seq<Item>, rest: seq<Item>, i: nat)
    requires i < |ranked + rest|
    ensures var item := (ranked + rest)[i];
            Decide(ranked, rest)[i] == Decision(item, Reasons(item), if i < |ranked| then At(i + 1) else Unranked)
  {
  }

  /** The record built for item `i` from the tables is the one the frontier has. */
  lemma DecisionAt(items: seq<Item>, ranked: seq<Item>, rest: seq<Item>, reasons: map<int, seq<Reason>>, positions: map<int, nat>, i: nat)
    requires UniqueItemIds(items) && ReasonsTable(items, reasons) && PositionTable(ranked, positions)
    requires forall x :: x in ranked <==> x in items && IsReady(x)
    requires forall x :: x in rest <==> x in items && !IsReady(x)
    requires i < |ranked + rest|
    ensures var item := (ranked + rest)[i];
            item.itemId in reasons && Decide(ranked, rest)[i] == DecisionOn(item, reasons, positions)
  {
    DecideAt(ranked, rest, i);
    var item := (ranked + rest)[i];
    if i < |ranked| {
      assert item == ranked[i] && item in ranked;
    } else {
      assert item == rest[i - |ranked|] && item in rest;
      var k :| 0 <= k < |items| && items[k] == item;
      PositionMeansReady(items, ranked, positions, k);
    }
  }

  lemma DecisionsMatch(items: seq<Item>, ranked: seq<Item>, rest: seq<Item>, reasons: map<int, seq<Reason>>, positions: map<int, nat>)
    requires UniqueItemIds(items) && ReasonsTable(items, reasons) && PositionTable(ranked, positions)
    requires forall x :: x in ranked <==> x in items && IsReady(x)
    requires forall x :: x in rest <==> x in items && !IsReady(x)
    ensures forall i :: 0 <= i < |ranked + rest| ==>
              (ranked + rest)[i].itemId in reasons && Decide(ranked, rest)[i] == DecisionOn((ranked + rest)[i], reasons, positions)
  {
    forall i | 0 <= i < |ranked + rest|
      ensures (ranked + rest)[i].itemId in reasons && Decide(ranked, rest)[i] == DecisionOn((ranked + rest)[i], reasons, positions)
    {
      DecisionAt(items, ranked, rest, reasons, positions, i);
    }
  }

  method SolveFrontier(items: seq<Item>, comparators: seq<Comparator>) returns (decisions: seq<Decision>, next: Recommendation)
    requires LegalPipeline(comparators) && UniqueItemIds(items)
    ensures decisions == Frontier(items, comparators) && next == Recommend(decisions)
  {
    var readyItems, reasonsByItem := Classify(items);
    var ranked := Sorted(readyItems, comparators);
    RankedFacts(items, comparators);
    SelectMeaning(items, false);
    var positions := NumberPositions(ranked);
    var rest := Unpositioned(items, ranked, positions);
    DecisionsMatch(items, ranked, rest, reasonsByItem, positions);
    decisions := RecordDecisions(ranked + rest, reasonsByItem, positions, Decide(ranked, rest));
    next := Recommend(decisions);
  }

  // ----- What the frontier promises -----

  function DecidedItems(decisions: seq<Decision>): (items: seq<Item>)
    ensures |items| == |decisions|
  {
    seq(|decisions|, i requires 0 <= i < |decisions| => decisions[i].item)
  }

  lemma DecidedAre(items: seq<Item>, comparators: seq<Comparator>)
    ensures DecidedItems(Frontier(items, comparators)) == Ranked(items, comparators) + Select(items, false)
  {
  }

  /** Each item is decided once. */
  lemma EachItemOnce(items: seq<Item>, comparators: seq<Comparator>)
    ensures multiset(DecidedItems(Frontier(items, comparators))) == multiset(items)
  {
    DecidedAre(items, comparators);
    SortedPermutes(Select(items, true), comparators);
    SelectSplits(items);
  }

  /** Ready items come first, numbered from 1 in strictly increasing key order; the others follow unranked. */
  lemma ReadyFirst(items: seq<Item>, comparators: seq<Comparator>, i: nat)
    requires LegalPipeline(comparators) && UniqueItemIds(items) && i < |Frontier(items, comparators)|
    ensures var ds := Frontier(items, comparators);
            && (ds[i].IsReady() <==> IsReady(ds[i].item)) && (ds[i].IsReady() <==> ds[i].position == At(i + 1))
            && (!ds[i].IsReady() ==> ds[i].position == Unranked)
            && (forall j :: 0 <= j < i && ds[i].IsReady() ==> ds[j].IsReady() && Before(ds[j].item, ds[i].item, comparators))
  {
    var ds, ranked, rest := Frontier(items, comparators), Ranked(items, comparators), Select(items, false);
    RankedFacts(items, comparators);
    SelectMeaning(items, false);
    ReadyMeansAllHold(ds[i].item);
    if i < |ranked| {
      assert ranked[i] in ranked;
      forall j | 0 <= j < i ensures ds[j].IsReady() && Before(ds[j].item, ds[i].item, comparators) {
        assert ranked[j] in ranked;
        ReadyMeansAllHold(ds[j].item);
      }
    } else {
      assert rest[i - |ranked|] in rest;
    }
  }

  /** The recommendation is the least ready item, and there is none exactly if nothing is ready. */
  lemma RecommendationIsLeast(items: seq<Item>, comparators: seq<Comparator>)
    requires LegalPipeline(comparators) && UniqueItemIds(items)
    ensures var next := Recommend(Frontier(items, comparators));
            && (next.Nothing? <==> forall x :: x in items ==> !IsReady(x))
            && (next.Recommended? ==>
                  exists x :: x in items && IsReady(x) && x.itemId == next.itemId &&
                              forall y :: y in items && IsReady(y) && y != x ==> Before(x, y, comparators))
  {
    var ranked, rest := Ranked(items, comparators), Select(items, false);
    RankedFacts(items, comparators);
    if ranked == [] {
      forall x | x in items ensures !IsReady(x) { assert x !in ranked; }
      NothingToRecommend(items, rest);
    } else {
      DecideAt(ranked, rest, 0);
      var x := ranked[0];
      assert x in ranked;
      ReadyMeansAllHold(x);
      FirstIsLeast(ranked, comparators);
      assert forall y :: y in items && IsReady(y) ==> y in ranked;
    }
  }

  lemma FirstIsLeast(ranked: seq<Item>, comparators: seq<Comparator>)
    requires ranked != [] && StrictlySorted(ranked, comparators)
    ensures forall y :: y in ranked && y != ranked[0] ==> Before(ranked[0], y, comparators)
  {
    forall y | y in ranked && y != ranked[0] ensures Before(ranked[0], y, comparators) {
      var k :| 0 <= k < |ranked| && ranked[k] == y;
    }
  }

  lemma NothingToRecommend(items: seq<Item>, rest: seq<Item>)
    requires rest == Select(items, false)
    ensures Recommend(Decide([], rest)).Nothing?
  {
    SelectMeaning(items, false);
    if rest != [] {
      DecideAt([], rest, 0);
      assert rest[0] in rest;
      ReadyMeansAllHold(rest[0]);
    }
  }

  /** The order of two ready items depends on the two alone. */
  lemma OrderIsIndependent(items: seq<Item>, comparators: seq<Comparator>, i: nat, j: nat)
    requires LegalPipeline(comparators) && UniqueItemIds(items)
    requires i < |Frontier(items, comparators)| && j < |Frontier(items, comparators)|
    requires var ds := Frontier(items, comparators); ds[i].IsReady() && ds[j].IsReady()
    ensures var ds := Frontier(items, comparators);
            && ds[i].position.At? && ds[j].position.At?
            && (ds[i].position.position < ds[j].position.position <==> Before(ds[i].item, ds[j].item, comparators))
  {
    ReadyFirst(items, comparators, i);
    ReadyFirst(items, comparators, j);
    var ds := Frontier(items, comparators);
    if Before(ds[i].item, ds[j].item, comparators) {
      LexAsymmetric(Key(ds[i].item, comparators), Key(ds[j].item, comparators));
    }
  }

  /** The same items in any order give the same snapshot, hence the same frontier. */
  lemma PermutationInvariant(a: seq<Item>, b: seq<Item>)
    requires multiset(a) == multiset(b)
    ensures UniqueItemIds(a) <==> UniqueItemIds(b)
    ensures UniqueItemIds(a) ==> Sorted(a, [StableId]) == Sorted(b, [StableId])
  {
    UniquePermuted(a, b);
    if UniqueItemIds(a) { SortedPermuted(a, b, [StableId]); }
  }

  // ----- The ranking in terms of the items' own fields -----

  /** What each comparator prefers: urgent, foundational, unlocking and old items, and the smaller identifier. */
  predicate Beats(a: Item, b: Item, comparator: Comparator) {
    match comparator
    case ProgramPriority => a.programPriority > b.programPriority
    case WorkClassOrder => (a.workClass.Foundation? && !b.workClass.Foundation?) || (a.workClass.Implementation? && b.workClass.Certification?)
    case DownstreamUnlockCountDesc => a.downstreamUnlockCount > b.downstreamUnlockCount
    case AgeDesc => a.ageSeconds > b.ageSeconds
    case StableId => a.itemId < b.itemId
  }

  /** Some comparator prefers `a`, and none before it tells the two apart. */
  ghost predicate Prefers(a: Item, b: Item, comparators: seq<Comparator>) {
    exists k :: 0 <= k < |comparators| && Beats(a, b, comparators[k]) && NoneBefore(a, b, comparators, k)
  }

  ghost predicate NoneBefore(a: Item, b: Item, comparators: seq<Comparator>, k: int) {
    forall n :: 0 <= n < k && n < |comparators| ==> !Beats(a, b, comparators[n]) && !Beats(b, a, comparators[n])
  }

  lemma ComponentsCompare(a: Item, b: Item, comparator: Comparator)
    ensures Beats(a, b, comparator) <==> Component(a, comparator) < Component(b, comparator)
  {
  }

  lemma PrefersIsBefore(a: Item, b: Item, comparators: seq<Comparator>)
    ensures Prefers(a, b, comparators) <==> Before(a, b, comparators)
  {
    var x, y := Key(a, comparators), Key(b, comparators);
    forall k | 0 <= k < |comparators|
      ensures Beats(a, b, comparators[k]) <==> x[k] < y[k]
      ensures Beats(b, a, comparators[k]) <==> y[k] < x[k]
    {
      ComponentsCompare(a, b, comparators[k]);
      ComponentsCompare(b, a, comparators[k]);
    }
    forall k | 0 <= k < |comparators| ensures NoneBefore(a, b, comparators, k) <==> x[..k] == y[..k] {
      if x[..k] == y[..k] {
        forall n | 0 <= n < k ensures x[n] == y[n] { assert x[..k][n] == y[..k][n]; }
      }
    }
    if Prefers(a, b, comparators) {
      var k :| 0 <= k < |comparators| && Beats(a, b, comparators[k]) && NoneBefore(a, b, comparators, k);
      assert FirstDifferenceLess(x, y, k);
    }
  }

  /** Of two ready items the one ranked first is the one the pipeline prefers, comparator by comparator. */
  lemma RankedByFields(items: seq<Item>, comparators: seq<Comparator>, i: nat, j: nat)
    requires LegalPipeline(comparators) && UniqueItemIds(items)
    requires i < |Frontier(items, comparators)| && j < |Frontier(items, comparators)|
    requires var ds := Frontier(items, comparators); ds[i].reasons == [Ready] && ds[j].reasons == [Ready]
    ensures var ds := Frontier(items, comparators);
            && ds[i].position == At(i + 1) && ds[j].position == At(j + 1)
            && (i < j <==> Prefers(ds[i].item, ds[j].item, comparators))
  {
    var ds := Frontier(items, comparators);
    OrderIsIndependent(items, comparators, i, j);
    ReadyFirst(items, comparators, i);
    ReadyFirst(items, comparators, j);
    PrefersIsBefore(ds[i].item, ds[j].item, comparators);
  }

  /** The recommendation names the ready item preferred to every other; there is none exactly if no item is ready. */
  lemma RecommendedIsPreferred(items: seq<Item>, comparators: seq<Comparator>)
    requires LegalPipeline(comparators) && UniqueItemIds(items)
    ensures var next := Recommend(Frontier(items, comparators));
            && (next.Nothing? <==> forall x :: x in items ==> !Actionable(x))
            && (next.Recommended? ==>
                  next.position == 1 &&
                  exists x :: x in items && Actionable(x) && x.itemId == next.itemId &&
                              forall y :: y in items && Actionable(y) && y != x ==> Prefers(x, y, comparators))
  {
    RecommendationIsLeast(items, comparators);
    var next := Recommend(Frontier(items, comparators));
    if next.Recommended? {
      var x :| x in items && IsReady(x) && x.itemId == next.itemId &&
               forall y :: y in items && IsReady(y) && y != x ==> Before(x, y, comparators);
      forall y | y in items && Actionable(y) && y != x ensures Prefers(x, y, comparators) {
        PrefersIsBefore(x, y, comparators);
      }
    }
  }

  /** Ready, condition by condition. */
  ghost predicate Actionable(item: Item) {
    && (item.lifecycle == "planned" || item.lifecycle == "active")
    && item.hardBlockersComplete && item.entryGatesPass && item.authoritySafe
  }

  function ReasonRank(r: Reason): int {
    match r
    case Ready => 0
    case LifecycleNotActionable => 1
    case IncompleteHardBlocker => 2
    case EntryGateBlocked => 3
    case UnsafeAuthority => 4
  }

  /** Exactly what stands against an item, each reason once, in a fixed order; "ready" alone if nothing does. */
  ghost predicate ExactReasons(item: Item, reasons: seq<Reason>) {
    ExactFor(reasons, item.lifecycle != "planned" && item.lifecycle != "active", !item.hardBlockersComplete, !item.entryGatesPass, !item.authoritySafe)
  }

  ghost predicate RankedUpTo(reasons: seq<Reason>, rank: int) {
    && (forall r :: r in reasons ==> 1 <= ReasonRank(r) <= rank)
    && (forall m, n :: 0 <= m < n < |reasons| ==> ReasonRank(reasons[m]) < ReasonRank(reasons[n]))
  }

  function Added(reasons: seq<Reason>, stands: bool, r: Reason): seq<Reason> {
    if stands then reasons + [r] else reasons
  }

  lemma AddReason(reasons: seq<Reason>, stands: bool, r: Reason)
    requires RankedUpTo(reasons, ReasonRank(r) - 1) && r != Ready
    ensures RankedUpTo(Added(reasons, stands, r), ReasonRank(r))
    ensures forall x :: x in Added(reasons, stands, r) <==> x in reasons || (stands && x == r)
  {
    forall m | 0 <= m < |reasons| ensures ReasonRank(reasons[m]) < ReasonRank(r) { assert reasons[m] in reasons; }
  }

  /** The reasons when these four conditions stand against an item, or not. */
  function Standing(lifecycle: bool, blockers: bool, gates: bool, authority: bool): seq<Reason> {
    Added(Added(Added(Added([], lifecycle, LifecycleNotActionable), blockers, IncompleteHardBlocker), gates, EntryGateBlocked),
          authority, UnsafeAuthority)
  }

  lemma StandingExact(lifecycle: bool, blockers: bool, gates: bool, authority: bool)
    ensures var all := Standing(lifecycle, blockers, gates, authority);
            RankedUpTo(all, 4) && forall x :: x in all <==> (lifecycle && x == LifecycleNotActionable) || (blockers && x == IncompleteHardBlocker) ||
                                                            (gates && x == EntryGateBlocked) || (authority && x == UnsafeAuthority)
  {
    var a := Added([], lifecycle, LifecycleNotActionable);
    var b := Added(a, blockers, IncompleteHardBlocker);
    var c := Added(b, gates, EntryGateBlocked);
    AddReason([], lifecycle, LifecycleNotActionable);
    AddReason(a, blockers, IncompleteHardBlocker);
    AddReason(b, gates, EntryGateBlocked);
    AddReason(c, authority, UnsafeAuthority);
  }

  ghost predicate ExactFor(reasons: seq<Reason>, lifecycle: bool, blockers: bool, gates: bool, authority: bool) {
    && (LifecycleNotActionable in reasons <==> lifecycle) && (IncompleteHardBlocker in reasons <==> blockers)
    && (EntryGateBlocked in reasons <==> gates) && (UnsafeAuthority in reasons <==> authority)
    && (Ready in reasons <==> !lifecycle && !blockers && !gates && !authority)
    && (forall m, n :: 0 <= m < n < |reasons| ==> ReasonRank(reasons[m]) < ReasonRank(reasons[n]))
  }

  lemma Combined(all: seq<Reason>, lifecycle: bool, blockers: bool, gates: bool, authority: bool)
    requires RankedUpTo(all, 4)
    requires LifecycleNotActionable in all <==> lifecycle
    requires IncompleteHardBlocker in all <==> blockers
    requires EntryGateBlocked in all <==> gates
    requires UnsafeAuthority in all <==> authority
    ensures ExactFor(if all == [] then [Ready] else all, lifecycle, blockers, gates, authority)
  {
    if all != [] {
      assert all[0] in all;
      assert Ready !in all;
    }
  }

  lemma ReasonsOf(item: Item)
    ensures ExactReasons(item, Reasons(item))
  {
    var lifecycle := item.lifecycle != "planned" && item.lifecycle != "active";
    StandingExact(lifecycle, !item.hardBlockersComplete, !item.entryGatesPass, !item.authoritySafe);
    ReasonsStand(item, lifecycle);
    Combined(Standing(lifecycle, !item.hardBlockersComplete, !item.entryGatesPass, !item.authoritySafe),
             lifecycle, !item.hardBlockersComplete, !item.entryGatesPass, !item.authoritySafe);
  }

  lemma ReasonsStand(item: Item, lifecycle: bool)
    requires lifecycle == (item.lifecycle != "planned" && item.lifecycle != "active")
    ensures var all := Standing(lifecycle, !item.hardBlockersComplete, !item.entryGatesPass, !item.authoritySafe);
            Reasons(item) == if all == [] then [Ready] else all
  {
  }

  /** Every decision states exactly the reasons of its item. */
  lemma ReasonsAreExact(items: seq<Item>, comparators: seq<Comparator>, i: nat)
    requires i < |Frontier(items, comparators)|
    ensures ExactReasons(Frontier(items, comparators)[i].item, Frontier(items, comparators)[i].reasons)
  {
    DecideAt(Ranked(items, comparators), Select(items, false), i);
    ReasonsOf(Frontier(items, comparators)[i].item);
  }

  ghost predicate ComesBefore(items: seq<Item>, a: Item, b: Item) {
    exists m, n :: 0 <= m < n < |items| && items[m] == a && items[n] == b
  }

  lemma {:induction false} SelectKeepsOrder(items: seq<Item>, ready: bool, i: nat, j: nat)
    requires i < j < |Select(items, ready)|
    ensures ComesBefore(items, Select(items, ready)[i], Select(items, ready)[j])
  {
    var k := |items| - 1;
    var before := Select(items[..k], ready);
    if j < |before| {
      SelectKeepsOrder(items[..k], ready, i, j);
      var m, n :| 0 <= m < n < |items[..k]| && items[..k][m] == before[i] && items[..k][n] == before[j];
      assert items[m] == before[i] && items[n] == before[j];
    } else {
      SelectMeaning(items[..k], ready);
      assert before[i] in before;
      var m :| 0 <= m < k && items[..k][m] == before[i];
      assert items[m] == before[i] && items[k] == Select(items, ready)[j];
    }
  }

  /** Items that are not ready follow in the order of the snapshot. */
  lemma UnreadyInOrder(items: seq<Item>, comparators: seq<Comparator>, i: nat, j: nat)
    requires LegalPipeline(comparators) && UniqueItemIds(items) && i < j < |Frontier(items, comparators)|
    requires !Actionable(Frontier(items, comparators)[i].item)
    ensures var ds := Frontier(items, comparators);
            !Actionable(ds[j].item) && ComesBefore(items, ds[i].item, ds[j].item)
  {
    UnreadyAt(items, comparators, i);
    var n := |Ranked(items, comparators)|;
    RestAt(items, comparators, j);
    SelectKeepsOrder(items, false, i - n, j - n);
  }

  lemma RestAt(items: seq<Item>, comparators: seq<Comparator>, i: nat)
    requires |Ranked(items, comparators)| <= i < |Frontier(items, comparators)|
    ensures var item := Frontier(items, comparators)[i].item;
            i - |Ranked(items, comparators)| < |Select(items, false)| && item == Select(items, false)[i - |Ranked(items, comparators)|] && !Actionable(item)
  {
    var rest := Select(items, false);
    DecideAt(Ranked(items, comparators), rest, i);
    SelectMeaning(items, false);
    assert rest[i - |Ranked(items, comparators)|] in rest;
  }

  lemma UnreadyAt(items: seq<Item>, comparators: seq<Comparator>, i: nat)
    requires LegalPipeline(comparators) && UniqueItemIds(items) && i < |Frontier(items, comparators)|
    requires !Actionable(Frontier(items, comparators)[i].item)
    ensures i >= |Ranked(items, comparators)| && i - |Ranked(items, comparators)| < |Select(items, false)|
    ensures Frontier(items, comparators)[i].item == Select(items, false)[i - |Ranked(items, comparators)|]
  {
    if i < |Ranked(items, comparators)| {
      DecideAt(Ranked(items, comparators), Select(items, false), i);
      RankedReady(items, comparators, i);
    } else {
      RestAt(items, comparators, i);
    }
  }

  lemma RankedReady(items: seq<Item>, comparators: seq<Comparator>, i: nat)
    requires LegalPipeline(comparators) && UniqueItemIds(items) && i < |Ranked(items, comparators)|
    ensures Actionable(Ranked(items, comparators)[i])
  {
    RankedFacts(items, comparators);
    assert Ranked(items, comparators)[i] in Ranked(items, comparators);
  }

  // ----- Raising a priority -----

  lemma RaisedKey(item: Item, priority: int, comparators: seq<Comparator>)
    requires priority >= item.programPriority
    ensures var raised := item.(programPriority := priority);
            Key(raised, comparators) == Key(item, comparators) || Before(raised, item, comparators)
  {
    var raised := item.(programPriority := priority);
    var x, y := Key(raised, comparators), Key(item, comparators);
    LexTotal(x, y);
    if i :| 0 <= i < |y| && FirstDifferenceLess(y, x, i) {
      assert x[i] == Component(raised, comparators[i]) && y[i] == Component(item, comparators[i]);
    }
  }

  /** Raising one ready item's priority never moves it later. */
  lemma RaisingNeverMovesLater(items: seq<Item>, comparators: seq<Comparator>, k: nat, priority: int, i: nat, j: nat)
    requires LegalPipeline(comparators) && UniqueItemIds(items) && k < |items| && IsReady(items[k])
    requires priority >= items[k].programPriority
    requires var raised := items[k].(programPriority := priority);
             && i < |Frontier(items, comparators)| && Frontier(items, comparators)[i].item == items[k]
             && j < |Frontier(items[k := raised], comparators)| && Frontier(items[k := raised], comparators)[j].item == raised
    ensures j <= i
  {
    var item, raised := items[k], items[k].(programPriority := priority);
    var items' := items[k := raised];
    assert forall n :: 0 <= n < |items| ==> items'[n].itemId == items[n].itemId;
    ReadyFirst(items, comparators, i);
    ReadyFirst(items', comparators, j);
    RankedFacts(items, comparators);
    RankedFacts(items', comparators);
    var a, b := Ranked(items, comparators), Ranked(items', comparators);
    RaisedKey(item, priority, comparators);
    forall x | x in b && Before(x, raised, comparators) ensures x in a && Before(x, item, comparators) {
      LexAsymmetric(Key(x, comparators), Key(raised, comparators));
      var m :| 0 <= m < |items'| && items'[m] == x;
      assert m != k && items[m] == x;
      if Before(raised, item, comparators) { BeforeTransitive(x, raised, item, comparators); }
    }
    NotLater(a, i, b, j, comparators);
  }
}
