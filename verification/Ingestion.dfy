/** Ingestion: merging refetched items, normalizing them, and the part of the corpus a change affects. */
module Ingestion {
  import opened Ordering
  import Frontier

  /** An identifier stands for its rank in string order. */
  type ItemId = int

  datatype Lifecycle = Completed | Planned

  /** `bodyBlockers` are the references found in the body's blocker section. */
  datatype SourceItem = SourceItem(itemId: ItemId, state: string, bodyBlockers: seq<ItemId>, policyBlockers: seq<ItemId>)

  datatype NormalizedItem = NormalizedItem(source: SourceItem, blockerIds: seq<ItemId>, lifecycle: Lifecycle)

  datatype Lookup = Unknown | Known(item: NormalizedItem)

  datatype Merge = MissingItem(id: ItemId) | Merged(items: seq<SourceItem>)

  // ----- Normalization -----

  function LowerChar(c: char): char {
    if 'A' <= c <= 'Z' then 'a' + (c - 'A') else c
  }

  function Lower(s: string): (r: string)
    ensures |r| == |s|
  {
    seq(|s|, i requires 0 <= i < |s| => LowerChar(s[i]))
  }

  function Normalize(item: SourceItem): NormalizedItem {
    NormalizedItem(item,
                   SortedNodes(Elements(item.bodyBlockers) + Elements(item.policyBlockers)),
                   if Lower(item.state) == "closed" then Completed else Planned)
  }

  function NormalizeAll(items: seq<SourceItem>): (r: seq<NormalizedItem>)
    ensures |r| == |items|
  {
    seq(|items|, i requires 0 <= i < |items| => Normalize(items[i]))
  }

  // ----- Merging a change -----

  /** The last item with the identifier, as a dictionary built in order has it. */
  function Last(items: seq<SourceItem>): map<ItemId, SourceItem> {
    if items == [] then map[]
    else Last(items[..|items| - 1])[items[|items| - 1].itemId := items[|items| - 1]]
  }

  lemma {:induction false} LastKeepsIds(items: seq<SourceItem>)
    ensures forall id :: id in Last(items) ==> Last(items)[id].itemId == id
  {
    if items != [] {
      LastKeepsIds(items[..|items| - 1]);
    }
  }

  ghost predicate KeyedById(m: map<ItemId, SourceItem>) {
    forall id :: id in m ==> m[id].itemId == id
  }

  /** The corpus after refetching: fetched items replace or join the stored ones. */
  ghost predicate IsMerge(m: map<ItemId, SourceItem>, stored: map<ItemId, SourceItem>, changed: seq<ItemId>, fetched: map<ItemId, SourceItem>) {
    && (forall id :: id in m <==> id in stored || id in changed)
    && (forall id :: id in changed ==> id in fetched && m[id] == fetched[id])
    && (forall id :: id in stored && id !in changed ==> m[id] == stored[id])
  }

  /** `items` lists the values of `m`, one for every key, in increasing order of identifier. */
  ghost predicate Lists(items: seq<SourceItem>, m: map<ItemId, SourceItem>) {
    && Increasing(seq(|items|, i requires 0 <= i < |items| => items[i].itemId))
    && (forall i :: 0 <= i < |items| ==> items[i].itemId in m && items[i] == m[items[i].itemId])
    && (forall id :: id in m ==> exists i :: 0 <= i < |items| && items[i].itemId == id)
  }

  lemma MergeStep(m: map<ItemId, SourceItem>, stored: map<ItemId, SourceItem>, seen: seq<ItemId>, fetched: map<ItemId, SourceItem>, id: ItemId)
    requires IsMerge(m, stored, seen, fetched) && id in fetched
    ensures IsMerge(m[id := fetched[id]], stored, seen + [id], fetched)
  {
  }

  lemma MergeKeyed(m: map<ItemId, SourceItem>, stored: map<ItemId, SourceItem>, changed: seq<ItemId>, fetched: map<ItemId, SourceItem>)
    requires IsMerge(m, stored, changed, fetched) && KeyedById(stored) && KeyedById(fetched)
    ensures KeyedById(m)
  {
  }

  ghost predicate SortedKeys(m: map<ItemId, SourceItem>, keys: seq<ItemId>) {
    && (forall k :: k in keys ==> k in m)
    && (forall i, j :: 0 <= i < j < |keys| && keys[i] in m && keys[j] in m ==> m[keys[i]].itemId <= m[keys[j]].itemId)
  }

  function InsertKey(m: map<ItemId, SourceItem>, id: ItemId, keys: seq<ItemId>): (r: seq<ItemId>)
    requires id in m && forall k :: k in keys ==> k in m
    ensures forall k :: k in r <==> k in keys || k == id
  {
    if keys == [] then [id]
    else
      var first: ItemId := keys[0];
      assert first in keys && keys == [first] + keys[1..];
      if m[id].itemId <= m[first].itemId then [id] + keys else [first] + InsertKey(m, id, keys[1..])
  }

  /** The keys, ordered by the identifiers of their values; keys of equal ones stay in their order. */
  function SortKeys(m: map<ItemId, SourceItem>, ids: seq<ItemId>): (r: seq<ItemId>)
    requires forall k :: k in ids ==> k in m
    ensures forall k :: k in r <==> k in ids
  {
    if ids == [] then []
    else
      assert ids == [ids[0]] + ids[1..];
      InsertKey(m, ids[0], SortKeys(m, ids[1..]))
  }

  /** No key of the list belongs to a lesser value than `first` does. */
  ghost predicate Least(m: map<ItemId, SourceItem>, first: ItemId, keys: seq<ItemId>) {
    first in m && forall k :: k in keys ==> k in m && m[first].itemId <= m[k].itemId
  }

  lemma SortedCons(m: map<ItemId, SourceItem>, first: ItemId, rest: seq<ItemId>)
    requires SortedKeys(m, rest) && Distinct(rest) && first !in rest && Least(m, first, rest)
    ensures SortedKeys(m, [first] + rest) && Distinct([first] + rest)
  {
    forall j | 0 <= j < |rest| ensures first != rest[j] && rest[j] in m && m[first].itemId <= m[rest[j]].itemId {
      var x: ItemId := rest[j];
      assert x in rest;
    }
  }

  lemma SortedUncons(m: map<ItemId, SourceItem>, keys: seq<ItemId>)
    requires keys != [] && SortedKeys(m, keys) && Distinct(keys)
    ensures SortedKeys(m, keys[1..]) && Distinct(keys[1..]) && keys[0] !in keys[1..] && Least(m, keys[0], keys[1..])
  {
    var first: ItemId := keys[0];
    assert first in keys;
    forall k | k in keys[1..] ensures k in m && m[first].itemId <= m[k].itemId {
      var j :| 0 < j < |keys| && keys[j] == k;
      assert k in keys;
    }
  }

  lemma {:induction false} InsertKeyKeeps(m: map<ItemId, SourceItem>, id: ItemId, keys: seq<ItemId>)
    requires id in m && id !in keys && SortedKeys(m, keys) && Distinct(keys)
    ensures SortedKeys(m, InsertKey(m, id, keys)) && Distinct(InsertKey(m, id, keys))
  {
    if keys == [] {
      SortedCons(m, id, []);
      assert [id] + [] == [id];
    } else {
      var first: ItemId, rest := keys[0], keys[1..];
      assert first in keys && keys == [first] + rest;
      SortedUncons(m, keys);
      if m[id].itemId <= m[first].itemId {
        assert Least(m, id, keys);
        SortedCons(m, id, keys);
      } else {
        InsertKeyKeeps(m, id, rest);
        assert Least(m, first, InsertKey(m, id, rest));
        SortedCons(m, first, InsertKey(m, id, rest));
      }
    }
  }

  lemma {:induction false} SortKeysSorts(m: map<ItemId, SourceItem>, ids: seq<ItemId>)
    requires Distinct(ids) && forall k :: k in ids ==> k in m
    ensures SortedKeys(m, SortKeys(m, ids)) && Distinct(SortKeys(m, ids))
  {
    if ids != [] {
      assert ids == [ids[0]] + ids[1..];
      SortKeysSorts(m, ids[1..]);
      assert ids[0] !in ids[1..];
      InsertKeyKeeps(m, ids[0], SortKeys(m, ids[1..]));
    }
  }

  ghost predicate Precedes(order: seq<ItemId>, a: ItemId, b: ItemId) {
    exists i, j :: 0 <= i < j < |order| && order[i] == a && order[j] == b
  }

  /** Keys whose values have one identifier come in the given order. */
  ghost predicate Stable(m: map<ItemId, SourceItem>, order: seq<ItemId>, keys: seq<ItemId>) {
    forall i, j :: 0 <= i < j < |keys| && keys[i] in m && keys[j] in m && m[keys[i]].itemId == m[keys[j]].itemId ==>
                     Precedes(order, keys[i], keys[j])
  }

  lemma PrecedesLater(order: seq<ItemId>, id: ItemId, a: ItemId, b: ItemId)
    requires Precedes(order, a, b) || (a == id && b in order)
    ensures Precedes([id] + order, a, b)
  {
    var longer := [id] + order;
    if i, j :| 0 <= i < j < |order| && order[i] == a && order[j] == b {
      assert longer[i + 1] == a && longer[j + 1] == b;
    } else {
      var j :| 0 <= j < |order| && order[j] == b;
      assert longer[0] == a && longer[j + 1] == b;
    }
  }

  lemma StableCons(m: map<ItemId, SourceItem>, order: seq<ItemId>, first: ItemId, rest: seq<ItemId>)
    requires Stable(m, order, rest)
    requires forall k :: k in rest && first in m && k in m && m[first].itemId == m[k].itemId ==> Precedes(order, first, k)
    ensures Stable(m, order, [first] + rest)
  {
    var keys := [first] + rest;
    forall i, j | 0 <= i < j < |keys| && keys[i] in m && keys[j] in m && m[keys[i]].itemId == m[keys[j]].itemId
      ensures Precedes(order, keys[i], keys[j])
    {
      assert keys[j] == rest[j - 1];
      if i > 0 { assert keys[i] == rest[i - 1]; }
    }
  }

  lemma StableLater(m: map<ItemId, SourceItem>, order: seq<ItemId>, id: ItemId, keys: seq<ItemId>)
    requires Stable(m, order, keys)
    ensures Stable(m, [id] + order, keys)
  {
    forall i, j | 0 <= i < j < |keys| && keys[i] in m && keys[j] in m && m[keys[i]].itemId == m[keys[j]].itemId
      ensures Precedes([id] + order, keys[i], keys[j])
    {
      PrecedesLater(order, id, keys[i], keys[j]);
    }
  }

  lemma StableRest(m: map<ItemId, SourceItem>, order: seq<ItemId>, keys: seq<ItemId>)
    requires keys != [] && Stable(m, order, keys)
    ensures Stable(m, order, keys[1..])
    ensures forall k :: k in keys[1..] && keys[0] in m && k in m && m[keys[0]].itemId == m[k].itemId ==> Precedes(order, keys[0], k)
  {
  }

  lemma {:induction false} InsertKeyStable(m: map<ItemId, SourceItem>, order: seq<ItemId>, id: ItemId, keys: seq<ItemId>)
    requires id in m && (forall k :: k in keys ==> k in m && k in order) && Stable(m, order, keys)
    ensures Stable(m, [id] + order, InsertKey(m, id, keys))
  {
    StableLater(m, order, id, keys);
    if keys != [] {
      var first: ItemId := keys[0];
      assert first in keys && keys == [first] + keys[1..];
      if m[id].itemId <= m[first].itemId {
        forall k | k in keys ensures Precedes([id] + order, id, k) { PrecedesLater(order, id, id, k); }
        StableCons(m, [id] + order, id, keys);
      } else {
        StableRest(m, order, keys);
        StableRest(m, [id] + order, keys);
        InsertKeyStable(m, order, id, keys[1..]);
        StableCons(m, [id] + order, first, InsertKey(m, id, keys[1..]));
      }
    }
  }

  lemma {:induction false} SortKeysStable(m: map<ItemId, SourceItem>, ids: seq<ItemId>)
    requires forall k :: k in ids ==> k in m
    ensures Stable(m, ids, SortKeys(m, ids))
  {
    if ids != [] {
      assert ids == [ids[0]] + ids[1..];
      SortKeysStable(m, ids[1..]);
      InsertKeyStable(m, ids[1..], ids[0], SortKeys(m, ids[1..]));
    }
  }

  /** A new key is entered last; a known one keeps its place. */
  function EnterKey(order: seq<ItemId>, id: ItemId): seq<ItemId> {
    if id in order then order else order + [id]
  }

  /** Each identifier once, where it first occurs: the order of a dictionary's keys. */
  function FirstSeen(ids: seq<ItemId>): seq<ItemId> {
    if ids == [] then [] else EnterKey(FirstSeen(ids[..|ids| - 1]), ids[|ids| - 1])
  }

  lemma {:induction false} FirstSeenOnce(ids: seq<ItemId>)
    ensures Distinct(FirstSeen(ids)) && forall k :: k in FirstSeen(ids) <==> k in ids
  {
    if ids != [] {
      var before, last: ItemId := ids[..|ids| - 1], ids[|ids| - 1];
      FirstSeenOnce(before);
      EnterKeyOnce(FirstSeen(before), last);
      assert ids == before + [last];
      assert forall k :: k in before + [last] <==> k in before || k == last;
    }
  }

  lemma EnterKeyOnce(order: seq<ItemId>, id: ItemId)
    requires Distinct(order)
    ensures Distinct(EnterKey(order, id)) && forall k :: k in EnterKey(order, id) <==> k in order || k == id
  {
    assert forall k :: k in order + [id] <==> k in order || k == id;
  }

  lemma FirstSeenNext(ids: seq<ItemId>, id: ItemId, longer: seq<ItemId>)
    requires longer == ids + [id]
    ensures FirstSeen(longer) == EnterKey(FirstSeen(ids), id)
  {
    assert longer[..|longer| - 1] == ids && longer[|longer| - 1] == id;
  }

  function ItemIds(items: seq<SourceItem>): seq<ItemId> {
    seq(|items|, i requires 0 <= i < |items| => items[i].itemId)
  }

  /** `items` lists the values of `m`, one for every key, by their own identifiers, which need not be the keys. */
  ghost predicate ListsValues(items: seq<SourceItem>, keys: seq<ItemId>, m: map<ItemId, SourceItem>) {
    && SortedKeys(m, keys) && Distinct(keys) && Elements(keys) == m.Keys
    && |items| == |keys|
    && forall i :: 0 <= i < |items| ==> keys[i] in m && items[i] == m[keys[i]]
  }

  lemma SortedKeyList(m: map<ItemId, SourceItem>, order: seq<ItemId>)
    requires Distinct(order) && forall k :: k in order <==> k in m
    ensures var keys := SortKeys(m, order);
            SortedKeys(m, keys) && Distinct(keys) && Elements(keys) == m.Keys && Stable(m, order, keys)
  {
    SortKeysSorts(m, order);
    SortKeysStable(m, order);
    forall k ensures k in Elements(SortKeys(m, order)) <==> k in m.Keys {
      assert k in SortKeys(m, order) <==> k in order;
    }
  }

  /** The values of a dictionary whose keys were entered in `order`, sorted by identifier. */
  method SortedValues(m: map<ItemId, SourceItem>, order: seq<ItemId>) returns (items: seq<SourceItem>, ghost keys: seq<ItemId>)
    requires Distinct(order) && forall k :: k in order <==> k in m
    ensures ListsValues(items, keys, m) && Stable(m, order, keys)
  {
    var sorted := SortKeys(m, order);
    SortedKeyList(m, order);
    items := [];
    for i := 0 to |sorted|
      invariant |items| == i
      invariant forall k :: 0 <= k < i ==> sorted[k] in m && items[k] == m[sorted[k]]
    {
      var id: ItemId := sorted[i];
      assert id in sorted;
      items := items + [m[id]];
    }
    keys := sorted;
  }

  /** In a dictionary keyed by identifier, the values come in strictly increasing order. */
  lemma KeyedLists(items: seq<SourceItem>, keys: seq<ItemId>, m: map<ItemId, SourceItem>)
    requires KeyedById(m) && ListsValues(items, keys, m)
    ensures Lists(items, m)
  {
    var ids := seq(|items|, i requires 0 <= i < |items| => items[i].itemId);
    forall i | 0 <= i < |ids| ensures ids[i] == keys[i] {
      var key: ItemId := keys[i];
      assert key in m && m[key].itemId == key;
    }
    assert ids == keys;
    forall i, j | 0 <= i < j < |ids| ensures ids[i] < ids[j] {
      assert keys[i] != keys[j];
    }
    forall id | id in m ensures exists i :: 0 <= i < |items| && items[i].itemId == id {
      assert id in Elements(keys);
      var i :| 0 <= i < |keys| && keys[i] == id;
      assert items[i].itemId == id;
    }
  }

  /** Refetched items replace or join the stored ones, under the identifier asked for; the first item the source no longer has is an error. */
  method MergeChanges(previous: seq<SourceItem>, changed: seq<ItemId>, fetched: map<ItemId, SourceItem>)
    returns (r: Merge, ghost merged: map<ItemId, SourceItem>, ghost keys: seq<ItemId>)
    ensures r.MissingItem? ==> IsMissing(changed, fetched, r.id)
    ensures r.Merged? ==> IsMerge(merged, Last(previous), changed, fetched) && ListsValues(r.items, keys, merged)
    ensures r.Merged? ==> Stable(merged, FirstSeen(ItemIds(previous) + changed), keys)
    ensures r.Merged? && KeyedById(fetched) ==> Lists(r.items, merged)
  {
    var missing, table, order := Refetch(previous, changed, fetched);
    if missing.None? {
      MergingEnds(previous, changed, fetched, table, order);
      var items;
      items, keys := SortedValues(table, order);
      r, merged := Merged(items), table;
      KeyedMerge(previous, changed, fetched, table, items, keys);
    } else {
      r, merged, keys := MissingItem(missing.id), table, [];
    }
  }

  datatype Missing = None | First(id: ItemId)

  /** The loop over the changed identifiers: it stops at the first that the source no longer has. */
  method Refetch(previous: seq<SourceItem>, changed: seq<ItemId>, fetched: map<ItemId, SourceItem>)
    returns (missing: Missing, table: map<ItemId, SourceItem>, order: seq<ItemId>)
    ensures missing.First? ==> IsMissing(changed, fetched, missing.id)
    ensures missing.None? ==> Merging(previous, fetched, changed, table, order)
  {
    table, order := Last(previous), FirstSeen(ItemIds(previous));
    ghost var seen: seq<ItemId> := [];
    MergingStart(previous, fetched);
    for i := 0 to |changed|
      invariant seen == changed[..i] && Merging(previous, fetched, seen, table, order)
    {
      var id: ItemId := changed[i];
      if id !in fetched {
        MissingAt(previous, changed, fetched, table, i);
        return First(id), table, order;
      }
      MergingNext(previous, fetched, seen, table, order, id);
      order := EnterKey(order, id);
      table := table[id := fetched[id]];
      seen := seen + [id];
    }
    assert seen == changed;
    missing := None;
  }

  lemma KeyedMerge(previous: seq<SourceItem>, changed: seq<ItemId>, fetched: map<ItemId, SourceItem>, table: map<ItemId, SourceItem>,
                   items: seq<SourceItem>, keys: seq<ItemId>)
    requires IsMerge(table, Last(previous), changed, fetched) && ListsValues(items, keys, table)
    ensures KeyedById(fetched) ==> Lists(items, table)
  {
    if KeyedById(fetched) {
      LastKeepsIds(previous);
      MergeKeyed(table, Last(previous), changed, fetched);
      KeyedLists(items, keys, table);
    }
  }

  ghost predicate IsMissing(changed: seq<ItemId>, fetched: map<ItemId, SourceItem>, id: ItemId) {
    exists i :: 0 <= i < |changed| && changed[i] == id && id !in fetched && forall k :: 0 <= k < i ==> changed[k] in fetched
  }

  /** The merge and the order of its keys after some of the changed identifiers. */
  ghost predicate Merging(previous: seq<SourceItem>, fetched: map<ItemId, SourceItem>, seen: seq<ItemId>, table: map<ItemId, SourceItem>, order: seq<ItemId>) {
    IsMerge(table, Last(previous), seen, fetched) && order == FirstSeen(ItemIds(previous) + seen)
  }

  lemma MergingStart(previous: seq<SourceItem>, fetched: map<ItemId, SourceItem>)
    ensures Merging(previous, fetched, [], Last(previous), FirstSeen(ItemIds(previous)))
  {
    assert ItemIds(previous) + [] == ItemIds(previous);
  }

  lemma MergingNext(previous: seq<SourceItem>, fetched: map<ItemId, SourceItem>, seen: seq<ItemId>, table: map<ItemId, SourceItem>,
                    order: seq<ItemId>, id: ItemId)
    requires Merging(previous, fetched, seen, table, order) && id in fetched
    ensures Merging(previous, fetched, seen + [id], table[id := fetched[id]], EnterKey(order, id))
  {
    MergeStep(table, Last(previous), seen, fetched, id);
    FirstSeenNext(ItemIds(previous) + seen, id, ItemIds(previous) + (seen + [id]));
  }

  lemma MergingEnds(previous: seq<SourceItem>, changed: seq<ItemId>, fetched: map<ItemId, SourceItem>, table: map<ItemId, SourceItem>, order: seq<ItemId>)
    requires Merging(previous, fetched, changed, table, order)
    ensures Distinct(order) && forall k :: k in order <==> k in table
  {
    LastHasIds(previous);
    FirstSeenOnce(ItemIds(previous) + changed);
  }

  lemma MissingAt(previous: seq<SourceItem>, changed: seq<ItemId>, fetched: map<ItemId, SourceItem>, table: map<ItemId, SourceItem>, i: nat)
    requires i < |changed| && changed[i] !in fetched && IsMerge(table, Last(previous), changed[..i], fetched)
    ensures IsMissing(changed, fetched, changed[i])
  {
    forall k | 0 <= k < i ensures changed[k] in fetched {
      var x: ItemId := changed[k];
      assert changed[..i][k] == x;
      assert x in changed[..i] && x in fetched;
    }
  }

  lemma LastHasIds(items: seq<SourceItem>)
    ensures forall id :: id in Last(items) <==> id in ItemIds(items)
  {
    LastMeaning(items);
    forall id | id in Last(items) ensures id in ItemIds(items) {
      var k :| 0 <= k < |items| && items[k].itemId == id;
      assert ItemIds(items)[k] == id;
    }
  }

  // ----- An adapter that answers under another identifier -----

  /** No identifier twice: what the snapshot accepts. */
  ghost predicate NoRepeats(items: seq<SourceItem>) {
    forall i, j :: 0 <= i < j < |items| ==> items[i].itemId != items[j].itemId
  }

  /** The answer for `id` carries the identifier of another answer, or of a stored item that was not refetched. */
  ghost predicate Clashes(stored: map<ItemId, SourceItem>, changed: seq<ItemId>, fetched: map<ItemId, SourceItem>, id: ItemId) {
    && id in changed && id in fetched
    && ((fetched[id].itemId in stored && fetched[id].itemId !in changed) ||
        exists other :: other in changed && other in fetched && other != id && fetched[other].itemId == fetched[id].itemId)
  }

  lemma KeyAt(items: seq<SourceItem>, keys: seq<ItemId>, m: map<ItemId, SourceItem>, id: ItemId) returns (i: nat)
    requires ListsValues(items, keys, m) && id in m
    ensures i < |items| && keys[i] == id && items[i] == m[id]
  {
    assert id in Elements(keys);
    i :| 0 <= i < |keys| && keys[i] == id;
  }

  /** The merged list repeats an identifier, which the snapshot then refuses, exactly if some answer clashes. */
  lemma RepeatsExactly(previous: seq<SourceItem>, changed: seq<ItemId>, fetched: map<ItemId, SourceItem>,
                       merged: map<ItemId, SourceItem>, items: seq<SourceItem>, keys: seq<ItemId>)
    requires IsMerge(merged, Last(previous), changed, fetched) && ListsValues(items, keys, merged)
    ensures !NoRepeats(items) <==> exists id :: Clashes(Last(previous), changed, fetched, id)
  {
    if i, j :| 0 <= i < j < |items| && items[i].itemId == items[j].itemId {
      EntriesClash(previous, changed, fetched, merged, keys[i], keys[j]);
    }
    if id :| Clashes(Last(previous), changed, fetched, id) {
      var other := OtherEntry(previous, changed, fetched, merged, id);
      var i := KeyAt(items, keys, merged, id);
      var j := KeyAt(items, keys, merged, other);
      if i < j {
        assert items[i].itemId == items[j].itemId;
      } else {
        assert items[j].itemId == items[i].itemId;
      }
    }
  }

  lemma EntriesClash(previous: seq<SourceItem>, changed: seq<ItemId>, fetched: map<ItemId, SourceItem>, merged: map<ItemId, SourceItem>,
                     a: ItemId, b: ItemId)
    requires IsMerge(merged, Last(previous), changed, fetched)
    requires a in merged && b in merged && a != b && merged[a].itemId == merged[b].itemId
    ensures Clashes(Last(previous), changed, fetched, a) || Clashes(Last(previous), changed, fetched, b)
  {
    LastKeepsIds(previous);
  }

  lemma OtherEntry(previous: seq<SourceItem>, changed: seq<ItemId>, fetched: map<ItemId, SourceItem>, merged: map<ItemId, SourceItem>, id: ItemId)
    returns (other: ItemId)
    requires IsMerge(merged, Last(previous), changed, fetched) && Clashes(Last(previous), changed, fetched, id)
    ensures id in merged && other in merged && other != id && merged[other].itemId == merged[id].itemId
  {
    LastKeepsIds(previous);
    other := fetched[id].itemId;
    if !(other in Last(previous) && other !in changed) {
      other :| other in changed && other in fetched && other != id && fetched[other].itemId == fetched[id].itemId;
    }
  }

  // ----- The affected set -----

  /** Whatever is blocked by a member is a member. */
  ghost predicate BlockClosed(items: seq<NormalizedItem>, ids: set<ItemId>) {
    forall k, b :: 0 <= k < |items| && b in items[k].blockerIds && b in ids ==> items[k].source.itemId in ids
  }

  /** The least set that contains the changed identifiers and everything blocked by a member. */
  ghost predicate IsAffected(items: seq<NormalizedItem>, changed: seq<ItemId>, ids: set<ItemId>) {
    && Elements(changed) <= ids && BlockClosed(items, ids)
    && forall other :: Elements(changed) <= other && BlockClosed(items, other) ==> ids <= other
  }

  /** The items that name `b` among their blockers. */
  ghost predicate IsDownstream(items: seq<NormalizedItem>, b: ItemId, targets: set<ItemId>) {
    forall id :: id in targets <==> exists k :: 0 <= k < |items| && b in items[k].blockerIds && items[k].source.itemId == id
  }

  function TargetsOf(downstream: map<ItemId, set<ItemId>>, b: ItemId): set<ItemId> {
    if b in downstream then downstream[b] else {}
  }

  ghost predicate DownstreamTable(items: seq<NormalizedItem>, downstream: map<ItemId, set<ItemId>>) {
    forall b :: IsDownstream(items, b, TargetsOf(downstream, b))
  }

  lemma DownstreamStep(seen: seq<NormalizedItem>, item: NormalizedItem, before: map<ItemId, set<ItemId>>, after: map<ItemId, set<ItemId>>)
    requires DownstreamTable(seen, before)
    requires forall b :: TargetsOf(after, b) == TargetsOf(before, b) + if b in item.blockerIds then {item.source.itemId} else {}
    ensures DownstreamTable(seen + [item], after)
  {
    var next := seen + [item];
    forall b ensures IsDownstream(next, b, TargetsOf(after, b)) {
      assert IsDownstream(seen, b, TargetsOf(before, b));
      forall id ensures id in TargetsOf(after, b) <==> exists k :: 0 <= k < |next| && b in next[k].blockerIds && next[k].source.itemId == id {
        if k :| 0 <= k < |seen| && b in seen[k].blockerIds && seen[k].source.itemId == id {
          assert next[k] == seen[k];
        }
        assert next[|seen|] == item;
      }
    }
  }

  method AddItem(before: map<ItemId, set<ItemId>>, item: NormalizedItem) returns (after: map<ItemId, set<ItemId>>)
    ensures forall b :: TargetsOf(after, b) == TargetsOf(before, b) + if b in item.blockerIds then {item.source.itemId} else {}
  {
    after := before;
    for j := 0 to |item.blockerIds|
      invariant forall b :: TargetsOf(after, b) == TargetsOf(before, b) + if b in item.blockerIds[..j] then {item.source.itemId} else {}
    {
      var blocker: ItemId := item.blockerIds[j];
      assert item.blockerIds[..j + 1] == item.blockerIds[..j] + [blocker];
      after := after[blocker := TargetsOf(after, blocker) + {item.source.itemId}];
    }
    assert item.blockerIds[..|item.blockerIds|] == item.blockerIds;
  }

  method Downstream(items: seq<NormalizedItem>) returns (downstream: map<ItemId, set<ItemId>>)
    ensures DownstreamTable(items, downstream)
  {
    downstream := map[];
    ghost var seen: seq<NormalizedItem> := [];
    for i := 0 to |items|
      invariant seen == items[..i] && DownstreamTable(seen, downstream)
    {
      ghost var before := downstream;
      downstream := AddItem(downstream, items[i]);
      DownstreamStep(seen, items[i], before, downstream);
      seen := seen + [items[i]];
    }
    assert seen == items;
  }

  function AllIds(items: seq<NormalizedItem>): set<ItemId> {
    set i | 0 <= i < |items| :: items[i].source.itemId
  }

  /** Found so far: inside every closed set that contains the changes; only queued members may have new targets. */
  ghost predicate Spreading(items: seq<NormalizedItem>, changed: seq<ItemId>, affected: set<ItemId>, queue: seq<ItemId>, downstream: map<ItemId, set<ItemId>>) {
      && Elements(changed) <= affected <= Elements(changed) + AllIds(items)
      && Elements(queue) <= affected
      && (forall b :: b in affected && b !in queue ==> TargetsOf(downstream, b) <= affected)
      && (forall other :: Elements(changed) <= other && BlockClosed(items, other) ==> affected <= other)
  }

  lemma TargetsInside(items: seq<NormalizedItem>, downstream: map<ItemId, set<ItemId>>, b: ItemId, other: set<ItemId>)
    requires DownstreamTable(items, downstream) && BlockClosed(items, other) && b in other
    ensures TargetsOf(downstream, b) <= other
  {
    assert IsDownstream(items, b, TargetsOf(downstream, b));
    forall id | id in TargetsOf(downstream, b) ensures id in other {
      var k :| 0 <= k < |items| && b in items[k].blockerIds && items[k].source.itemId == id;
    }
  }

  lemma TargetsAreItems(items: seq<NormalizedItem>, downstream: map<ItemId, set<ItemId>>, b: ItemId)
    requires DownstreamTable(items, downstream)
    ensures TargetsOf(downstream, b) <= AllIds(items)
  {
    assert IsDownstream(items, b, TargetsOf(downstream, b));
    forall id | id in TargetsOf(downstream, b) ensures id in AllIds(items) {
      var k :| 0 <= k < |items| && b in items[k].blockerIds && items[k].source.itemId == id;
    }
  }

  /** New targets are marked and queued. */
  method EnqueueTargets(affected: set<ItemId>, queue: seq<ItemId>, targets: seq<ItemId>) returns (affected': set<ItemId>, queue': seq<ItemId>)
    ensures affected' == affected + Elements(targets)
    ensures Elements(queue') == Elements(queue) + (Elements(targets) - affected)
    ensures affected' == affected ==> queue' == queue
  {
    affected', queue' := affected, queue;
    for j := 0 to |targets|
      invariant affected' == affected + Elements(targets[..j])
      invariant Elements(queue') == Elements(queue) + (Elements(targets[..j]) - affected)
      invariant affected' == affected ==> queue' == queue
    {
      var target: ItemId := targets[j];
      assert targets[..j + 1] == targets[..j] + [target];
      assert Elements(targets[..j + 1]) == Elements(targets[..j]) + {target};
      if target !in affected' {
        affected' := affected' + {target};
        assert Elements(queue' + [target]) == Elements(queue') + {target};
        queue' := queue' + [target];
      } else {
        assert Elements(targets[..j]) + {target} - affected == Elements(targets[..j]) - affected;
      }
    }
    assert targets[..|targets|] == targets;
  }

  /** The members that may still have targets to add, after taking one from the queue. */
  lemma QueuedOrClosed(downstream: map<ItemId, set<ItemId>>, affected: set<ItemId>, queue: seq<ItemId>, affected': set<ItemId>, queue': seq<ItemId>)
    requires queue != [] && forall b :: b in affected && b !in queue ==> TargetsOf(downstream, b) <= affected
    requires affected' == affected + TargetsOf(downstream, queue[0])
    requires Elements(queue') == Elements(queue[1..]) + (TargetsOf(downstream, queue[0]) - affected)
    ensures forall b :: b in affected' && b !in queue' ==> TargetsOf(downstream, b) <= affected'
    ensures Elements(queue) <= affected ==> Elements(queue') <= affected'
  {
    assert forall b :: b in Elements(queue[1..]) ==> b in Elements(queue);
    forall b | b in affected' && b !in queue' ensures TargetsOf(downstream, b) <= affected' {
      assert b !in Elements(queue');
      assert b !in queue[1..];
      assert b == queue[0] || b !in queue;
    }
  }

  lemma SpreadStep(items: seq<NormalizedItem>, changed: seq<ItemId>, affected: set<ItemId>, queue: seq<ItemId>, downstream: map<ItemId, set<ItemId>>,
                   affected': set<ItemId>, queue': seq<ItemId>)
    requires DownstreamTable(items, downstream) && Spreading(items, changed, affected, queue, downstream) && queue != []
    requires affected' == affected + TargetsOf(downstream, queue[0])
    requires Elements(queue') == Elements(queue[1..]) + (TargetsOf(downstream, queue[0]) - affected)
    ensures Spreading(items, changed, affected', queue', downstream)
  {
    var current := queue[0];
    assert current in Elements(queue);
    TargetsAreItems(items, downstream, current);
    QueuedOrClosed(downstream, affected, queue, affected', queue');
    forall other | Elements(changed) <= other && BlockClosed(items, other) ensures affected' <= other {
      TargetsInside(items, downstream, current, other);
    }
  }

  lemma FewerToFind(items: seq<NormalizedItem>, changed: seq<ItemId>, affected: set<ItemId>, targets: set<ItemId>)
    requires targets <= AllIds(items) && affected + targets != affected
    ensures |Elements(changed) + AllIds(items) - (affected + targets)| < |Elements(changed) + AllIds(items) - affected|
  {
    var x := PickMissing(affected + targets, affected);
    FewerLeft(Elements(changed) + AllIds(items), affected, affected + targets, x);
  }

  lemma SortedElements(ids: set<ItemId>)
    ensures Elements(SortedNodes(ids)) == ids
  {
  }

  lemma SpreadEnds(items: seq<NormalizedItem>, changed: seq<ItemId>, affected: set<ItemId>, downstream: map<ItemId, set<ItemId>>)
    requires DownstreamTable(items, downstream) && Spreading(items, changed, affected, [], downstream)
    ensures IsAffected(items, changed, affected)
  {
    forall k, b | 0 <= k < |items| && b in items[k].blockerIds && b in affected ensures items[k].source.itemId in affected {
      assert IsDownstream(items, b, TargetsOf(downstream, b));
      assert items[k].source.itemId in TargetsOf(downstream, b);
    }
  }

  /** The changed identifiers and everything downstream of them; with no change named, everything. */
  method AffectedItemIds(items: seq<NormalizedItem>, changed: seq<ItemId>) returns (affected: set<ItemId>)
    ensures changed == [] ==> affected == AllIds(items)
    ensures changed != [] ==> IsAffected(items, changed, affected)
  {
    if changed == [] {
      return set i | 0 <= i < |items| :: items[i].source.itemId;
    }
    var downstream := Downstream(items);
    affected := Elements(changed);
    var queue := changed;
    while queue != []
      invariant Spreading(items, changed, affected, queue, downstream)
      decreases |Elements(changed) + AllIds(items) - affected|, |queue|
    {
      var targets := TargetsOf(downstream, queue[0]);
      SortedElements(targets);
      var affected', queue' := EnqueueTargets(affected, queue[1..], SortedNodes(targets));
      SpreadStep(items, changed, affected, queue, downstream, affected', queue');
      TargetsAreItems(items, downstream, queue[0]);
      if affected' != affected { FewerToFind(items, changed, affected, targets); }
      affected, queue := affected', queue';
    }
    SpreadEnds(items, changed, affected, downstream);
  }

  // ----- Frontier inputs -----

  function States(items: seq<NormalizedItem>): map<ItemId, Lifecycle> {
    if items == [] then map[]
    else
      var item := items[|items| - 1];
      States(items[..|items| - 1])[item.source.itemId := item.lifecycle]
  }

  predicate IsIncomplete(states: map<ItemId, Lifecycle>, b: ItemId) {
    !(b in states && states[b] == Completed)
  }

  /** The blockers not known to be completed, in order. */
  function Incomplete(states: map<ItemId, Lifecycle>, blockers: seq<ItemId>): seq<ItemId> {
    if blockers == [] then []
    else
      var b := blockers[|blockers| - 1];
      Incomplete(states, blockers[..|blockers| - 1]) + if IsIncomplete(states, b) then [b] else []
  }

  /** How many items are blocked by `b`. */
  function FanOut(items: seq<NormalizedItem>, b: ItemId): nat {
    if items == [] then 0
    else FanOut(items[..|items| - 1], b) + multiset(items[|items| - 1].blockerIds)[b]
  }

  datatype FrontierInput = FrontierInput(item: Frontier.Item, incompleteHardBlockers: seq<ItemId>)

  function InputFor(item: NormalizedItem, states: map<ItemId, Lifecycle>, fanOut: nat, age: nat): FrontierInput {
    var incomplete := Incomplete(states, item.blockerIds);
    FrontierInput(
      Frontier.Item(item.source.itemId, if item.lifecycle == Completed then "completed" else "planned",
                    0, Frontier.Implementation, fanOut, age, incomplete == [], true, true),
      incomplete)
  }

  /** The input of one item of a corpus, from its age in seconds, which a skewed clock may make negative. */
  function InputOf(items: seq<NormalizedItem>, item: NormalizedItem, seconds: int): FrontierInput {
    InputFor(item, States(items), FanOut(items, item.source.itemId), Age(seconds))
  }

  function Age(seconds: int): nat {
    if seconds < 0 then 0 else seconds
  }

  function Inputs(items: seq<NormalizedItem>, seconds: seq<int>): (inputs: seq<FrontierInput>)
    requires |seconds| == |items|
    ensures |inputs| == |items|
  {
    seq(|items|, i requires 0 <= i < |items| => InputOf(items, items[i], seconds[i]))
  }

  lemma InputAt(items: seq<NormalizedItem>, seconds: seq<int>, i: nat, states: map<ItemId, Lifecycle>, count: nat)
    requires |seconds| == |items| && i < |items|
    requires states == States(items) && count == FanOut(items, items[i].source.itemId)
    ensures Inputs(items, seconds)[i] == InputFor(items[i], states, count, Age(seconds[i]))
  {
  }

  function CountOf(counts: map<ItemId, nat>, b: ItemId): nat {
    if b in counts then counts[b] else 0
  }

  method CountBlockers(before: map<ItemId, nat>, blockers: seq<ItemId>) returns (after: map<ItemId, nat>)
    ensures forall b :: CountOf(after, b) == CountOf(before, b) + multiset(blockers)[b]
  {
    after := before;
    for j := 0 to |blockers|
      invariant forall b :: CountOf(after, b) == CountOf(before, b) + multiset(blockers[..j])[b]
    {
      var blocker: ItemId := blockers[j];
      assert blockers[..j + 1] == blockers[..j] + [blocker];
      after := after[blocker := CountOf(after, blocker) + 1];
    }
    assert blockers[..|blockers|] == blockers;
  }

  method FanOutTable(items: seq<NormalizedItem>) returns (fanOut: map<ItemId, nat>)
    ensures forall b :: CountOf(fanOut, b) == FanOut(items, b)
  {
    fanOut := map[];
    ghost var seen: seq<NormalizedItem> := [];
    for i := 0 to |items|
      invariant seen == items[..i] && forall b :: CountOf(fanOut, b) == FanOut(seen, b)
    {
      fanOut := CountBlockers(fanOut, items[i].blockerIds);
      assert (seen + [items[i]])[..i] == seen;
      seen := seen + [items[i]];
    }
    assert seen == items;
  }

  /** One engine input per item; `seconds` is each item's age at the moment of the solve. */
  method FrontierInputs(items: seq<NormalizedItem>, seconds: seq<int>) returns (inputs: seq<FrontierInput>)
    requires |seconds| == |items|
    ensures inputs == Inputs(items, seconds)
  {
    var states := StateTable(items);
    var fanOut := FanOutTable(items);
    ghost var goal := Inputs(items, seconds);
    inputs := [];
    for i := 0 to |items|
      invariant inputs == goal[..i]
    {
      var count := CountOf(fanOut, items[i].source.itemId);
      InputAt(items, seconds, i, states, count);
      inputs := inputs + [InputFor(items[i], states, count, Age(seconds[i]))];
    }
  }

  method StateTable(items: seq<NormalizedItem>) returns (states: map<ItemId, Lifecycle>)
    ensures states == States(items)
  {
    states := map[];
    ghost var seen: seq<NormalizedItem> := [];
    for i := 0 to |items|
      invariant seen == items[..i] && states == States(seen)
    {
      states := states[items[i].source.itemId := items[i].lifecycle];
      assert (seen + [items[i]])[..i] == seen;
      seen := seen + [items[i]];
    }
    assert seen == items;
  }

  ghost function Naming(items: seq<NormalizedItem>, b: ItemId): set<nat> {
    set k: nat | k < |items| && b in items[k].blockerIds
  }

  lemma NamingAppend(items: seq<NormalizedItem>, item: NormalizedItem, b: ItemId)
    ensures |Naming(items + [item], b)| == |Naming(items, b)| + if b in item.blockerIds then 1 else 0
  {
    assert Naming(items + [item], b) == Naming(items, b) + if b in item.blockerIds then {|items|} else {};
  }

  lemma {:induction false} FanOutCounts(items: seq<NormalizedItem>, b: ItemId)
    requires forall k :: 0 <= k < |items| ==> Increasing(items[k].blockerIds)
    ensures FanOut(items, b) == |Naming(items, b)|
  {
    if items != [] {
      var k := |items| - 1;
      FanOutCounts(items[..k], b);
      NamingAppend(items[..k], items[k], b);
      OnceInIncreasing(items[k].blockerIds, b);
      assert items[..k] + [items[k]] == items;
    }
  }

  /** The fan-out of a normalized corpus counts the items that name the blocker. */
  lemma FanOutCountsItems(items: seq<SourceItem>, b: ItemId)
    ensures FanOut(NormalizeAll(items), b) == |Naming(NormalizeAll(items), b)|
  {
    FanOutCounts(NormalizeAll(items), b);
  }

  lemma {:induction false} OnceInIncreasing(s: seq<ItemId>, b: ItemId)
    requires Increasing(s)
    ensures multiset(s)[b] == if b in s then 1 else 0
  {
    if s != [] {
      var k := |s| - 1;
      OnceInIncreasing(s[..k], b);
      assert s == s[..k] + [s[k]];
    }
  }

  // ----- What a change cannot touch -----

  /** Two corpora that give every identifier outside `changed` the same item. */
  ghost predicate SameOutside(a: seq<NormalizedItem>, b: seq<NormalizedItem>, changed: seq<ItemId>) {
    forall id :: id !in changed ==> LookUp(a, id) == LookUp(b, id)
  }

  function LookUp(items: seq<NormalizedItem>, id: ItemId): Lookup {
    if items == [] then Unknown
    else if items[|items| - 1].source.itemId == id then Known(items[|items| - 1])
    else LookUp(items[..|items| - 1], id)
  }

  lemma {:induction false} LookUpState(items: seq<NormalizedItem>, id: ItemId)
    ensures id in States(items) <==> LookUp(items, id).Known?
    ensures id in States(items) ==> States(items)[id] == LookUp(items, id).item.lifecycle
    ensures LookUp(items, id).Known? ==> LookUp(items, id).item in items && LookUp(items, id).item.source.itemId == id
  {
    if items != [] {
      LookUpState(items[..|items| - 1], id);
    }
  }

  lemma {:induction false} SameIncomplete(a: map<ItemId, Lifecycle>, b: map<ItemId, Lifecycle>, blockers: seq<ItemId>)
    requires forall x :: x in blockers ==> (IsIncomplete(a, x) <==> IsIncomplete(b, x))
    ensures Incomplete(a, blockers) == Incomplete(b, blockers)
  {
    if blockers != [] {
      SameIncomplete(a, b, blockers[..|blockers| - 1]);
      assert blockers[|blockers| - 1] in blockers;
    }
  }

  /** Outside the affected set an item keeps its lifecycle, its incomplete blockers and its readiness. */
  lemma UnaffectedKeepFacts(before: seq<NormalizedItem>, after: seq<NormalizedItem>, changed: seq<ItemId>, affected: set<ItemId>, id: ItemId,
                            fanOut: nat, age: nat, fanOut': nat, age': nat)
    requires SameOutside(before, after, changed) && IsAffected(after, changed, affected) && id !in affected
    ensures LookUp(before, id) == LookUp(after, id)
    ensures LookUp(after, id).Known? ==>
              var item := LookUp(after, id).item;
              && Incomplete(States(before), item.blockerIds) == Incomplete(States(after), item.blockerIds)
              && Frontier.Reasons(InputFor(item, States(before), fanOut, age).item) ==
                 Frontier.Reasons(InputFor(item, States(after), fanOut', age').item)
  {
    assert id !in Elements(changed);
    LookUpState(after, id);
    if LookUp(after, id).Known? {
      var item := LookUp(after, id).item;
      var k :| 0 <= k < |after| && after[k] == item;
      forall b | b in item.blockerIds ensures IsIncomplete(States(before), b) <==> IsIncomplete(States(after), b) {
        assert b !in affected && b !in Elements(changed);
        LookUpState(before, b);
        LookUpState(after, b);
      }
      SameIncomplete(States(before), States(after), item.blockerIds);
    }
  }

  lemma {:induction false} LastMeaning(items: seq<SourceItem>)
    ensures forall k :: 0 <= k < |items| ==> items[k].itemId in Last(items)
    ensures forall id :: id in Last(items) ==> exists k :: 0 <= k < |items| && items[k].itemId == id && Last(items)[id] == items[k]
  {
    if items != [] {
      var n := |items| - 1;
      LastMeaning(items[..n]);
      forall id | id in Last(items) ensures exists k :: 0 <= k < |items| && items[k].itemId == id && Last(items)[id] == items[k] {
        if id == items[n].itemId {
          assert Last(items)[id] == items[n];
        } else {
          assert id in Last(items[..n]);
          var k :| 0 <= k < |items[..n]| && items[..n][k].itemId == id && Last(items[..n])[id] == items[..n][k];
          assert items[k].itemId == id && Last(items)[id] == items[k];
        }
      }
    }
  }

  lemma ListsLast(items: seq<SourceItem>, m: map<ItemId, SourceItem>)
    requires Lists(items, m)
    ensures Last(items) == m
  {
    LastMeaning(items);
    forall id ensures id in Last(items) <==> id in m {
      if id in m {
        var k :| 0 <= k < |items| && items[k].itemId == id;
      }
    }
    forall id | id in m ensures Last(items)[id] == m[id] {
      var k :| 0 <= k < |items| && items[k].itemId == id && Last(items)[id] == items[k];
    }
  }

  lemma {:induction false} LookUpNormalized(items: seq<SourceItem>, id: ItemId)
    ensures LookUp(NormalizeAll(items), id) == if id in Last(items) then Known(Normalize(Last(items)[id])) else Unknown
  {
    if items != [] {
      var n := |items| - 1;
      LookUpNormalized(items[..n], id);
      assert NormalizeAll(items)[..n] == NormalizeAll(items[..n]);
    }
  }

  /** Merging a change leaves every identifier outside it with the item it had. */
  lemma MergeTouchesOnlyChanged(previous: seq<SourceItem>, changed: seq<ItemId>, fetched: map<ItemId, SourceItem>,
                                merged: map<ItemId, SourceItem>, items: seq<SourceItem>)
    requires IsMerge(merged, Last(previous), changed, fetched) && Lists(items, merged)
    ensures SameOutside(NormalizeAll(previous), NormalizeAll(items), changed)
  {
    ListsLast(items, merged);
    forall id | id !in changed ensures LookUp(NormalizeAll(previous), id) == LookUp(NormalizeAll(items), id) {
      LookUpNormalized(previous, id);
      LookUpNormalized(items, id);
    }
  }

  /** In a list without repeats, the last item with an identifier is the only one. */
  lemma OnlyOne(items: seq<SourceItem>, i: nat)
    requires NoRepeats(items) && i < |items|
    ensures items[i].itemId in Last(items) && Last(items)[items[i].itemId] == items[i]
  {
    LastMeaning(items);
    var k :| 0 <= k < |items| && items[k].itemId == items[i].itemId && Last(items)[items[i].itemId] == items[k];
    assert k == i;
  }

  /** What an accepted merge holds outside the change: the stored item, or a foreign answer. */
  lemma OutsideChange(previous: seq<SourceItem>, changed: seq<ItemId>, fetched: map<ItemId, SourceItem>,
                      merged: map<ItemId, SourceItem>, items: seq<SourceItem>, keys: seq<ItemId>, id: ItemId)
    requires IsMerge(merged, Last(previous), changed, fetched) && ListsValues(items, keys, merged) && NoRepeats(items)
    requires id !in changed
    ensures id in Last(previous) ==> id in Last(items) && Last(items)[id] == Last(previous)[id]
    ensures id !in Last(previous) ==> (id in Last(items) <==> exists c :: c in changed && fetched[c].itemId == id)
  {
    LastKeepsIds(previous);
    LastMeaning(items);
    if id in Last(previous) {
      var i := KeyAt(items, keys, merged, id);
      OnlyOne(items, i);
    } else {
      if id in Last(items) {
        var i :| 0 <= i < |items| && items[i].itemId == id && Last(items)[id] == items[i];
        var c: ItemId := keys[i];
        assert c in changed && fetched[c].itemId == id;
      }
      if c :| c in changed && fetched[c].itemId == id {
        var i := KeyAt(items, keys, merged, c);
        OnlyOne(items, i);
      }
    }
  }

  /** An accepted merge leaves every identifier outside the change with the item it had exactly if all answers carry changed identifiers. */
  lemma TouchesOnlyChangedExactly(previous: seq<SourceItem>, changed: seq<ItemId>, fetched: map<ItemId, SourceItem>,
                                  merged: map<ItemId, SourceItem>, items: seq<SourceItem>, keys: seq<ItemId>)
    requires IsMerge(merged, Last(previous), changed, fetched) && ListsValues(items, keys, merged) && NoRepeats(items)
    ensures SameOutside(NormalizeAll(previous), NormalizeAll(items), changed) <==> forall c :: c in changed ==> fetched[c].itemId in changed
  {
    forall id | id !in changed
      ensures LookUp(NormalizeAll(previous), id) == LookUp(NormalizeAll(items), id) <==>
              !exists c :: c in changed && fetched[c].itemId == id
    {
      OutsideAnswer(previous, changed, fetched, merged, items, keys, id);
    }
    forall c | c in changed && fetched[c].itemId !in changed ensures !SameOutside(NormalizeAll(previous), NormalizeAll(items), changed) {
      assert LookUp(NormalizeAll(previous), fetched[c].itemId) != LookUp(NormalizeAll(items), fetched[c].itemId);
    }
  }

  lemma OutsideAnswer(previous: seq<SourceItem>, changed: seq<ItemId>, fetched: map<ItemId, SourceItem>,
                      merged: map<ItemId, SourceItem>, items: seq<SourceItem>, keys: seq<ItemId>, id: ItemId)
    requires IsMerge(merged, Last(previous), changed, fetched) && ListsValues(items, keys, merged) && NoRepeats(items)
    requires id !in changed
    ensures LookUp(NormalizeAll(previous), id) == LookUp(NormalizeAll(items), id) <==>
            !exists c :: c in changed && fetched[c].itemId == id
  {
    LookUpNormalized(previous, id);
    LookUpNormalized(items, id);
    OutsideChange(previous, changed, fetched, merged, items, keys, id);
    if c :| id in Last(previous) && c in changed && fetched[c].itemId == id {
      LastKeepsIds(previous);
      var i := KeyAt(items, keys, merged, id);
      var j := KeyAt(items, keys, merged, c);
      assert false;
    }
  }

  /** One changed identifier, answered with a new item under another one: nothing repeats, and an item appears outside the change. */
  lemma ForeignAnswerExample(asked: ItemId, answer: SourceItem)
    requires answer.itemId != asked
    ensures var fetched, merged := map[asked := answer], map[asked := answer];
            && IsMerge(merged, Last([]), [asked], fetched) && ListsValues([answer], [asked], merged) && NoRepeats([answer])
            && !SameOutside(NormalizeAll([]), NormalizeAll([answer]), [asked])
  {
    var fetched := map[asked := answer];
    assert Elements([asked]) == fetched.Keys;
    TouchesOnlyChangedExactly([], [asked], fetched, fetched, [answer], [asked]);
    assert asked in [asked] && fetched[asked].itemId !in [asked];
  }

  // ----- What the engine is told, in terms of the source items -----

  /** The state reads "closed" in any mix of cases. */
  predicate IsClosed(state: string) {
    && |state| == 6
    && (state[0] == 'c' || state[0] == 'C') && (state[1] == 'l' || state[1] == 'L') && (state[2] == 'o' || state[2] == 'O')
    && (state[3] == 's' || state[3] == 'S') && (state[4] == 'e' || state[4] == 'E') && (state[5] == 'd' || state[5] == 'D')
  }

  predicate Names(item: SourceItem, b: ItemId) {
    b in item.bodyBlockers || b in item.policyBlockers
  }

  lemma LowerIsClosed(state: string)
    ensures Lower(state) == "closed" <==> IsClosed(state)
  {
    var lower := Lower(state);
    assert forall i :: 0 <= i < |state| ==> lower[i] == LowerChar(state[i]);
    if IsClosed(state) {
      assert lower == "closed";
    }
  }

  /** Normalizing keeps the item, lists what it names once and in order, and marks closed items completed. */
  lemma NormalizeMeans(item: SourceItem)
    ensures var n := Normalize(item);
            && n.source == item && Increasing(n.blockerIds) && (forall b :: b in n.blockerIds <==> Names(item, b))
            && (n.lifecycle == Completed <==> IsClosed(item.state))
  {
    LowerIsClosed(item.state);
  }

  /** The corpus has an item with the identifier, and the last such item is closed. */
  ghost predicate KnownClosed(items: seq<SourceItem>, id: ItemId) {
    exists k :: 0 <= k < |items| && items[k].itemId == id && IsClosed(items[k].state) && forall n :: k < n < |items| ==> items[n].itemId != id
  }

  lemma {:induction false} LastOf(items: seq<SourceItem>, id: ItemId)
    ensures (id in Last(items) && IsClosed(Last(items)[id].state)) <==> KnownClosed(items, id)
  {
    if items != [] {
      var n := |items| - 1;
      var before := items[..n];
      LastOf(before, id);
      if items[n].itemId == id {
        assert Last(items)[id] == items[n];
        if IsClosed(items[n].state) { assert KnownClosed(items, id); }
      } else {
        if k :| 0 <= k < |before| && before[k].itemId == id && IsClosed(before[k].state) && forall m :: k < m < |before| ==> before[m].itemId != id {
          assert items[k] == before[k];
          forall m | k < m < |items| ensures items[m].itemId != id { assert m < n ==> items[m] == before[m]; }
          assert KnownClosed(items, id);
        }
        if k :| 0 <= k < |items| && items[k].itemId == id && IsClosed(items[k].state) && forall m :: k < m < |items| ==> items[m].itemId != id {
          assert before[k] == items[k];
          forall m | k < m < |before| ensures before[m].itemId != id { assert before[m] == items[m]; }
          assert KnownClosed(before, id);
        }
      }
    }
  }

  lemma IncompleteIsOpen(items: seq<SourceItem>, b: ItemId)
    ensures IsIncomplete(States(NormalizeAll(items)), b) <==> !KnownClosed(items, b)
  {
    LookUpState(NormalizeAll(items), b);
    LookUpNormalized(items, b);
    LastOf(items, b);
    if b in Last(items) { NormalizeMeans(Last(items)[b]); }
  }

  lemma {:induction false} IncompleteMembers(states: map<ItemId, Lifecycle>, blockers: seq<ItemId>)
    requires Increasing(blockers)
    ensures Increasing(Incomplete(states, blockers))
    ensures forall b :: b in Incomplete(states, blockers) <==> b in blockers && IsIncomplete(states, b)
  {
    if blockers != [] {
      var before, last: ItemId := blockers[..|blockers| - 1], blockers[|blockers| - 1];
      IncompleteMembers(states, before);
      assert blockers == before + [last];
      forall i | 0 <= i < |Incomplete(states, before)| ensures Incomplete(states, before)[i] < last {
        var b: ItemId := Incomplete(states, before)[i];
        assert b in Incomplete(states, before);
        var k :| 0 <= k < |before| && before[k] == b;
        assert blockers[k] == b;
      }
    }
  }

  /** One engine input, from the corpus, the position and the age alone. */
  ghost predicate RightInput(items: seq<SourceItem>, i: nat, seconds: int, f: FrontierInput)
    requires i < |items|
  {
    && f.item.itemId == items[i].itemId && f.item.lifecycle == (if IsClosed(items[i].state) then "completed" else "planned")
    && f.item.programPriority == 0 && f.item.workClass == Frontier.Implementation
    && f.item.downstreamUnlockCount == |set k: nat | k < |items| && Names(items[k], items[i].itemId)|
    && f.item.ageSeconds == (if seconds < 0 then 0 else seconds)
    && f.item.entryGatesPass && f.item.authoritySafe
    && Increasing(f.incompleteHardBlockers)
    && (forall b :: b in f.incompleteHardBlockers <==> Names(items[i], b) && !KnownClosed(items, b))
    && (f.item.hardBlockersComplete <==> f.incompleteHardBlockers == [])
  }

  lemma NamingIsNames(items: seq<SourceItem>, id: ItemId)
    ensures Naming(NormalizeAll(items), id) == set k: nat | k < |items| && Names(items[k], id)
  {
    forall k: nat | k < |items| ensures id in NormalizeAll(items)[k].blockerIds <==> Names(items[k], id) {
      NormalizeMeans(items[k]);
    }
  }

  lemma InputIsRight(items: seq<SourceItem>, seconds: seq<int>, i: nat)
    requires |seconds| == |items| && i < |items|
    ensures RightInput(items, i, seconds[i], Inputs(NormalizeAll(items), seconds)[i])
  {
    var all, item := NormalizeAll(items), Normalize(items[i]);
    var states := States(all);
    assert all[i] == item;
    NormalizeMeans(items[i]);
    FanOutCountsItems(items, items[i].itemId);
    NamingIsNames(items, items[i].itemId);
    InputAt(all, seconds, i, states, FanOut(all, items[i].itemId));
    IncompleteMembers(states, item.blockerIds);
    forall b ensures b in Incomplete(states, item.blockerIds) <==> Names(items[i], b) && !KnownClosed(items, b) {
      IncompleteIsOpen(items, b);
    }
  }

  /** An ingested item is ready exactly if it is open and everything it names is known to be closed. */
  lemma ReadyAfterIngestion(items: seq<SourceItem>, seconds: seq<int>, i: nat)
    requires |seconds| == |items| && i < |items|
    ensures Frontier.IsReady(Inputs(NormalizeAll(items), seconds)[i].item) <==>
            !IsClosed(items[i].state) && forall b :: Names(items[i], b) ==> KnownClosed(items, b)
  {
    InputIsRight(items, seconds, i);
    var f := Inputs(NormalizeAll(items), seconds)[i];
    if f.incompleteHardBlockers != [] {
      assert f.incompleteHardBlockers[0] in f.incompleteHardBlockers;
    }
  }
}
