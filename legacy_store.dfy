/** The database layer of the legacy app: its per-session counts are upserted by
    (item, session), category names are stored upper-cased, and the item and count queries
    filter and order. */
module LegacyStore {
  import opened Wrappers
  import opened Model
  import opened Text
  import opened Collections
  import opened Sorting
  import Store

  predicate IsCountFor(c: InventoryCount, itemId: Id, sessionId: Id) {
    c.itemId == itemId && c.sessionId == sessionId
  }

  /** The first document of `where('itemId', '==', itemId).where('sessionId', '==', sessionId)`. */
  function FirstCountFor(counts: seq<InventoryCount>, itemId: Id, sessionId: Id): (r: Option<nat>)
    ensures r.Some? ==> r.value < |counts| && IsCountFor(counts[r.value], itemId, sessionId)
    ensures r.Some? ==> forall j :: 0 <= j < r.value ==> !IsCountFor(counts[j], itemId, sessionId)
    ensures r.None? ==> forall j :: 0 <= j < |counts| ==> !IsCountFor(counts[j], itemId, sessionId)
  {
    if counts == [] then None
    else if IsCountFor(counts[0], itemId, sessionId) then Some(0)
    else match FirstCountFor(counts[1..], itemId, sessionId)
      case Some(k) => Some(k + 1)
      case None => None
  }

  /** The table after the legacy `createOrUpdateInventoryCount`: the quantity, the counter
      and the count time are written together, the counter as given even when absent. */
  function UpsertCount(counts: seq<InventoryCount>, itemId: Id, sessionId: Id, countedQuantity: int,
                       countedByUid: Option<Id>, now: int, freshId: Id): seq<InventoryCount>
  {
    match FirstCountFor(counts, itemId, sessionId)
    case Some(k) => counts[k := counts[k].(countedQuantity := countedQuantity, countedByUid := countedByUid, countedAt := now)]
    case None => counts + [InventoryCount(freshId, itemId, sessionId, countedQuantity, countedByUid, now)]
  }

  /** The upsert either rewrites the first record of the (item, session) pair, adding
      nothing, or appends exactly one; the written record carries all three new values and
      every other record is unchanged. */
  lemma UpsertWritesOneRecord(counts: seq<InventoryCount>, itemId: Id, sessionId: Id, countedQuantity: int,
                              countedByUid: Option<Id>, now: int, freshId: Id)
    ensures var r := UpsertCount(counts, itemId, sessionId, countedQuantity, countedByUid, now, freshId);
            var found := exists j :: 0 <= j < |counts| && IsCountFor(counts[j], itemId, sessionId);
            && |r| == |counts| + (if found then 0 else 1)
            && exists k :: 0 <= k < |r| && IsCountFor(r[k], itemId, sessionId)
                 && r[k].countedQuantity == countedQuantity && r[k].countedByUid == countedByUid
                 && r[k].countedAt == now
                 && (k < |counts| ==> r[k].id == counts[k].id)
                 && (forall j :: 0 <= j < |counts| && j != k ==> r[j] == counts[j])
  {
    var r := UpsertCount(counts, itemId, sessionId, countedQuantity, countedByUid, now, freshId);
    match FirstCountFor(counts, itemId, sessionId)
    case Some(k) =>
      assert IsCountFor(r[k], itemId, sessionId);
    case None =>
      assert IsCountFor(r[|counts|], itemId, sessionId);
  }

  /** At most one count per (item, session): the unique constraint of the legacy schema. */
  ghost predicate PairsUnique(counts: seq<InventoryCount>) {
    forall i, j :: 0 <= i < j < |counts| ==>
      !(counts[i].itemId == counts[j].itemId && counts[i].sessionId == counts[j].sessionId)
  }

  lemma UpsertKeepsPairsUnique(counts: seq<InventoryCount>, itemId: Id, sessionId: Id, countedQuantity: int,
                               countedByUid: Option<Id>, now: int, freshId: Id)
    requires PairsUnique(counts)
    ensures PairsUnique(UpsertCount(counts, itemId, sessionId, countedQuantity, countedByUid, now, freshId))
  {
  }

  /** Legacy `getItems(categoryId?)`: ordered by name, restricted to the category when one is given. */
  function GetItems(items: seq<Item>, categoryId: Id): (r: seq<Item>)
    ensures forall i :: 0 <= i < |r| ==> r[i] in items
    ensures categoryId != [] ==> forall i :: 0 <= i < |r| ==> r[i].categoryId == categoryId
    ensures categoryId != [] ==> multiset(r) == multiset(Filter(items, Store.InCategory(categoryId)))
    ensures categoryId == [] ==> multiset(r) == multiset(items)
    ensures forall i, j :: 0 <= i < j < |r| ==> StringLe(r[i].name, r[j].name)
  {
    var chosen := if categoryId != [] then Filter(items, Store.InCategory(categoryId)) else items;
    Store.ItemNameLePreorder(chosen);
    SortSorted(chosen, Store.ItemNameLe);
    SortKeepsElements(chosen, Store.ItemNameLe);
    Sort(chosen, Store.ItemNameLe)
  }

  function OfSession(sessionId: Id): InventoryCount -> bool {
    (c: InventoryCount) => c.sessionId == sessionId
  }

  function ItemIdLe(a: InventoryCount, b: InventoryCount): bool {
    StringLe(a.itemId, b.itemId)
  }

  /** Legacy `getInventoryCounts(sessionId)`: the session's counts, ordered by item id. */
  function GetInventoryCounts(counts: seq<InventoryCount>, sessionId: Id): (r: seq<InventoryCount>)
    ensures forall i :: 0 <= i < |r| ==> r[i] in counts && r[i].sessionId == sessionId
    ensures multiset(r) == multiset(Filter(counts, OfSession(sessionId)))
    ensures forall i, j :: 0 <= i < j < |r| ==> StringLe(r[i].itemId, r[j].itemId)
  {
    var chosen := Filter(counts, OfSession(sessionId));
    ItemIdLePreorder(chosen);
    SortSorted(chosen, ItemIdLe);
    SortKeepsElements(chosen, ItemIdLe);
    Sort(chosen, ItemIdLe)
  }

  lemma ItemIdLePreorder(xs: seq<InventoryCount>)
    ensures TotalPreorderOn(xs, ItemIdLe)
  {
    forall a, b | a in xs && b in xs ensures ItemIdLe(a, b) || ItemIdLe(b, a) {
      StringLeTotal(a.itemId, b.itemId);
    }
    forall a, b, c | a in xs && b in xs && c in xs && ItemIdLe(a, b) && ItemIdLe(b, c)
      ensures ItemIdLe(a, c)
    {
      StringLeTrans(a.itemId, b.itemId, c.itemId);
    }
  }

  class LegacyDatabase {
    var categories: seq<Category>
    var counts: seq<InventoryCount>

    constructor ()
      ensures categories == [] && counts == []
    {
      categories, counts := [], [];
    }

    /** Legacy `createOrUpdateInventoryCount(itemId, sessionId, countedQuantity, countedByUid?)`. */
    method CreateOrUpdateInventoryCount(itemId: Id, sessionId: Id, countedQuantity: int,
                                        countedByUid: Option<Id>, now: int, freshId: Id)
      modifies this`counts
      ensures counts == UpsertCount(old(counts), itemId, sessionId, countedQuantity, countedByUid, now, freshId)
    {
      var i := 0;
      while i < |counts|
        invariant 0 <= i <= |counts|
        invariant forall j :: 0 <= j < i ==> !IsCountFor(counts[j], itemId, sessionId)
      {
        if IsCountFor(counts[i], itemId, sessionId) {
          FirstIndexIsFirstCount(counts, itemId, sessionId, i);
          counts := counts[i := counts[i].(countedQuantity := countedQuantity, countedByUid := countedByUid, countedAt := now)];
          return;
        }
        i := i + 1;
      }
      FirstIndexIsFirstCount(counts, itemId, sessionId, |counts|);
      counts := counts + [InventoryCount(freshId, itemId, sessionId, countedQuantity, countedByUid, now)];
    }

    /** Legacy `createCategory(name)`: stores the name upper-cased, without trimming. */
    method CreateCategory(name: string, now: int, freshId: Id) returns (id: Id)
      modifies this`categories
      ensures id == freshId
      ensures categories == old(categories) + [Category(freshId, ToUpper(name), now)]
    {
      categories := categories + [Category(freshId, ToUpper(name), now)];
      id := freshId;
    }
  }

  lemma FirstIndexIsFirstCount(counts: seq<InventoryCount>, itemId: Id, sessionId: Id, i: nat)
    requires i <= |counts|
    requires forall j :: 0 <= j < i ==> !IsCountFor(counts[j], itemId, sessionId)
    requires i < |counts| ==> IsCountFor(counts[i], itemId, sessionId)
    ensures FirstCountFor(counts, itemId, sessionId) == if i < |counts| then Some(i) else None
  {
    var r := FirstCountFor(counts, itemId, sessionId);
    if r.Some? && i < |counts| {
      assert !(r.value < i) && !(i < r.value);
    }
  }

  /** The stored category name has no lower-case ASCII letter and is as long as the input. */
  lemma UpperCasedName(name: string)
    ensures |ToUpper(name)| == |name|
    ensures forall k :: 0 <= k < |name| ==> !('a' <= ToUpper(name)[k] <= 'z')
  {
  }
}
