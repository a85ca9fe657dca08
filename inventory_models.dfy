/** The Django app's tables (the legacy server-rendered inventory): categories, items,
    counting sessions, the per-session counts and the per-term historical counts, with the computed values the models offer.
    Primary keys are integers; dates are day numbers. */
module InventoryModels {
  import opened Wrappers

  datatype Category = Category(id: nat, name: string)

  datatype Item = Item(id: nat, name: string, categoryId: nat, location: string, condition: string,
                       serialFrequency: string, expectedQuantity: nat, notes: string, createdDate: int)

  datatype InventorySession = InventorySession(id: nat, name: string, date: int, isComplete: bool, notes: string)

  datatype InventoryCount = InventoryCount(itemId: nat, sessionId: nat, countedQuantity: nat)

  /** A count imported for one academic term. */
  datatype HistoricalCount = HistoricalCount(itemId: nat, termId: nat, countedQuantity: nat)

  /** `unique_together = ['item', 'session']`: one count per item and session. */
  predicate UniqueItemSession(counts: seq<InventoryCount>) {
    forall i, j :: 0 <= i < j < |counts| ==>
      counts[i].itemId != counts[j].itemId || counts[i].sessionId != counts[j].sessionId
  }

  /** `name = CharField(unique=True)` on categories. */
  predicate UniqueCategoryNames(categories: seq<Category>) {
    forall i, j :: 0 <= i < j < |categories| ==> categories[i].name != categories[j].name
  }

  /** One of an item's counts as `self.counts.order_by('-session__date')` sees it: its
      quantity together with the date of its session. */
  datatype DatedCount = DatedCount(sessionDate: int, countedQuantity: nat)

  /** The position `order_by('-session__date').first()` picks: a count of the latest session
      date (the first such count in the order given, where the database leaves ties open). */
  function LatestIndex(counts: seq<DatedCount>): (k: nat)
    requires counts != []
    ensures k < |counts|
    ensures forall j :: 0 <= j < |counts| ==> counts[j].sessionDate <= counts[k].sessionDate
    decreases |counts|
  {
    if |counts| == 1 then 0
    else
      var k := LatestIndex(counts[1..]);
      if counts[0].sessionDate >= counts[1..][k].sessionDate then 0 else k + 1
  }

  /** `Item.get_latest_count()`: the quantity counted in the item's most recent session, or 0
      when the item was never counted. */
  function GetLatestCount(counts: seq<DatedCount>): (r: nat)
    ensures counts == [] ==> r == 0
    ensures counts != [] ==> exists i :: 0 <= i < |counts| && counts[i].countedQuantity == r
                                && forall j :: 0 <= j < |counts| ==> counts[j].sessionDate <= counts[i].sessionDate
  {
    if counts == [] then 0 else counts[LatestIndex(counts)].countedQuantity
  }

  /** `Item.has_shortage()`: the latest count is below the expected quantity. */
  predicate HasShortage(counts: seq<DatedCount>, expectedQuantity: nat) {
    GetLatestCount(counts) < expectedQuantity
  }

  /** A count taken in a session later than every other decides the shortage on its own. */
  lemma ShortageFollowsNewestCount(counts: seq<DatedCount>, newest: DatedCount, expectedQuantity: nat)
    requires forall j :: 0 <= j < |counts| ==> counts[j].sessionDate < newest.sessionDate
    ensures GetLatestCount(counts + [newest]) == newest.countedQuantity
    ensures HasShortage(counts + [newest], expectedQuantity) <==> newest.countedQuantity < expectedQuantity
  {
    var all := counts + [newest];
    assert forall j :: 0 <= j < |counts| ==> all[j] == counts[j];
    assert all[|counts|] == newest;
    var i :| 0 <= i < |all| && all[i].countedQuantity == GetLatestCount(all)
             && forall j :: 0 <= j < |all| ==> all[j].sessionDate <= all[i].sessionDate;
    assert i == |counts|;
  }

  /** An item never counted has a shortage exactly when something is expected of it. */
  lemma UncountedShortage(expectedQuantity: nat)
    ensures HasShortage([], expectedQuantity) <==> expectedQuantity > 0
  {
  }

  /** `InventorySession.get_completion_percentage()` on the number of counts in the session
      and the number of items: the percentage rounded down, or 0 when there are no items. */
  function CompletionPercentage(countedItems: nat, totalItems: nat): (r: nat)
    ensures totalItems == 0 ==> r == 0
    ensures totalItems > 0 ==> r * totalItems <= countedItems * 100 < (r + 1) * totalItems
  {
    if totalItems > 0 then countedItems * 100 / totalItems else 0
  }

  /** With at most one count per item the percentage stays within 0..100, and it reaches 100
      exactly when every item is counted. */
  lemma CompletionBounds(countedItems: nat, totalItems: nat)
    requires countedItems <= totalItems
    ensures CompletionPercentage(countedItems, totalItems) <= 100
    ensures totalItems > 0 ==> (CompletionPercentage(countedItems, totalItems) == 100 <==> countedItems == totalItems)
  {
    var r := CompletionPercentage(countedItems, totalItems);
    if totalItems > 0 {
      MulMonotone(countedItems, totalItems, 100);
      if r > 100 {
        MulMonotone(101, r, totalItems);
      }
      if r < 100 {
        MulMonotone(r + 1, 100, totalItems);
      }
    }
  }

  lemma {:induction false} MulMonotone(a: int, b: int, c: nat)
    requires a <= b
    ensures a * c <= b * c
  {
    if c > 0 {
      MulMonotone(a, b, c - 1);
      assert a * c == a * (c - 1) + a;
      assert b * c == b * (c - 1) + b;
    }
  }

  /** `InventoryCount.has_discrepancy()`: the counted quantity differs from the item's
      expected quantity. */
  predicate HasDiscrepancy(count: InventoryCount, item: Item) {
    count.countedQuantity != item.expectedQuantity
  }

  /** When a count is the item's latest, a shortage is a discrepancy; the converse fails for
      a surplus. */
  lemma ShortageIsDiscrepancy(count: InventoryCount, item: Item, sessionDate: int)
    ensures HasShortage([DatedCount(sessionDate, count.countedQuantity)], item.expectedQuantity) ==> HasDiscrepancy(count, item)
    ensures count.countedQuantity > item.expectedQuantity ==>
              HasDiscrepancy(count, item) && !HasShortage([DatedCount(sessionDate, count.countedQuantity)], item.expectedQuantity)
  {
    assert LatestIndex([DatedCount(sessionDate, count.countedQuantity)]) == 0;
  }
}
